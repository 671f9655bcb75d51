/** MMIO windows: device registers mapped at ever higher virtual addresses, on the page tables. */
module Mmio {
  import opened Arithmetic
  import opened Bits
  import opened Pmm
  import opened Vmm

  const MMIO_BASE: nat := 0xFFFF_9000_0000_0000

  /** Present, writable, cache-disabled and global. */
  const MMIO_FLAGS: nat := 0x113

  // ---------------------------------------------------------------- pages of a window

  /** The flags of a window bring no address bit. */
  lemma {:induction false} FlagsHaveNoFrame()
    ensures FrameOf(MMIO_FLAGS) == 0
  {
    FrameOfIsField(MMIO_FLAGS);
  }

  /** The i-th page of a mapped range, as long as the range stays at the top. */
  lemma {:induction false} RangePage(flat: map<nat, nat>, virt: nat, phys: nat, flags: nat, n: nat, i: nat)
    requires i < n && 0xFFFF_0000_0000_0000 <= virt && virt + 4096 * n <= 0x1_0000_0000_0000_0000
    ensures PageOf(virt + 4096 * i) in FlatRange(flat, virt, phys, flags, n)
    ensures FlatRange(flat, virt, phys, flags, n)[PageOf(virt + 4096 * i)] == Pte(phys + 4096 * i, flags)
  {
    if i < n - 1 {
      RangePage(flat, virt, phys, flags, n - 1, i);
      PageOfHigh(virt + 4096 * i);
      PageOfHigh(virt + 4096 * (n - 1));
    }
  }

  /** What an address translates to under a flat map; 0 when nothing is mapped. */
  function Physical(flat: map<nat, nat>, virt: nat): nat {
    if PageOf(virt) in flat then 4096 * FrameOf(flat[PageOf(virt)]) + virt % 4096 else 0
  }

  /** Page `i` of the window at `start` is page `i` of the device. */
  ghost predicate MapsPage(flat: map<nat, nat>, start: nat, phys: nat, i: nat) {
    PageOf(start + 4096 * i) in flat && flat[PageOf(start + 4096 * i)] == Pte(phys + 4096 * i, MMIO_FLAGS)
  }

  /** The window at `start` maps `n` pages of the device, in order. */
  ghost predicate Maps(flat: map<nat, nat>, start: nat, phys: nat, n: nat) {
    forall i :: 0 <= i < n ==> MapsPage(flat, start, phys, i)
  }

  ghost predicate InWindow(start: nat, n: nat, page: nat) {
    exists i :: 0 <= i < n && PageOf(start + 4096 * i) == page
  }

  ghost predicate SamePage(flat: map<nat, nat>, flat': map<nat, nat>, page: nat) {
    (page in flat' <==> page in flat) && (page in flat ==> flat'[page] == flat[page])
  }

  /** Pages outside the `n` pages at `start` are mapped as before. */
  ghost predicate Elsewhere(flat: map<nat, nat>, flat': map<nat, nat>, start: nat, n: nat) {
    forall page: nat :: InWindow(start, n, page) || SamePage(flat, flat', page)
  }

  /** A page outside the range is as before. */
  lemma {:induction false} RangeElsewhere(flat: map<nat, nat>, virt: nat, phys: nat, flags: nat, n: nat, page: nat)
    requires !InWindow(virt, n, page)
    ensures SamePage(flat, FlatRange(flat, virt, phys, flags, n), page)
  {
    if n > 0 {
      assert PageOf(virt + 4096 * (n - 1)) != page;
      assert !InWindow(virt, n - 1, page);
      RangeElsewhere(flat, virt, phys, flags, n - 1, page);
    }
  }

  /** A mapped page of the device gives its bytes at the same offset. */
  lemma {:induction false} PageByte(flat: map<nat, nat>, s: nat, p: nat, i: nat, r: nat)
    requires MapsPage(flat, 4096 * s, 4096 * p, i) && r < 4096
    requires 0xF_FFF0_0000_0000 <= s && s + i < 0x10_0000_0000_0000 && p + i < 0x100_0000_0000
    ensures Physical(flat, 4096 * (s + i) + r) == 4096 * (p + i) + r
    ensures PageOf(4096 * (s + i) + r) in flat && DeviceAccess(flat[PageOf(4096 * (s + i) + r)])
  {
    SamePageKey(s + i, r);
    DeviceFrame(p + i);
    assert 4096 * p + 4096 * i == 4096 * (p + i) && 4096 * s + 4096 * i == 4096 * (s + i);
  }

  lemma {:induction false} SamePageKey(s: nat, r: nat)
    requires 0xF_FFF0_0000_0000 <= s < 0x10_0000_0000_0000 && r < 4096
    ensures PageOf(4096 * s + r) == PageOf(4096 * s) && (4096 * s + r) % 4096 == r
  {
    HighPage(4096 * s + r, s, r);
    HighPage(4096 * s, s, 0);
  }

  lemma {:induction false} HighPage(virt: nat, s: nat, r: nat)
    requires virt == 4096 * s + r && r < 4096 && 0xF_FFF0_0000_0000 <= s < 0x10_0000_0000_0000
    ensures PageOf(virt) == s - 0xF_FFF0_0000_0000 && virt % 4096 == r
  {
    QuotientOf(virt, 4096, s, r);
    PageOfHigh(virt);
  }

  lemma {:induction false} DeviceFrame(f: nat)
    requires f < 0x100_0000_0000
    ensures FrameOf(Pte(4096 * f, MMIO_FLAGS)) == f && DeviceAccess(Pte(4096 * f, MMIO_FLAGS))
  {
    hide Pte, Low, Or;
    FlagsHaveNoFrame();
    PteFrameIff(4096 * f, MMIO_FLAGS);
    FrameOfPage(f);
    PteFields(4096 * f, MMIO_FLAGS);
    FieldSizes();
    LowIsMod(Pte(4096 * f, MMIO_FLAGS), 12);
    LowIsMod(MMIO_FLAGS, 12);
    assert Or(0x113, 1) == 0x113 by {
      OrHalves(0x113, 1);
      OrZero(0x89);
    }
  }

  // ---------------------------------------------------------------- windows

  datatype Window = Window(start: nat, size: nat)

  ghost predicate WindowIn(w: Window, next: nat) {
    MMIO_BASE <= w.start && w.start % 4096 == 0 && w.size % 4096 == 0 && w.start + w.size <= next
  }

  ghost predicate Before(v: Window, w: Window) { v.start + v.size <= w.start }

  /** Windows in the order they were handed out, each behind the one before. */
  ghost predicate InOrder(ws: seq<Window>, next: nat) {
    && (forall i :: 0 <= i < |ws| ==> WindowIn(ws[i], next))
    && (forall i, j :: 0 <= i < j < |ws| ==> Before(ws[i], ws[j]))
  }

  lemma {:induction false} NextInOrder(ws: seq<Window>, next: nat, size: nat)
    requires InOrder(ws, next) && MMIO_BASE <= next && next % 4096 == 0 && size % 4096 == 0
    ensures InOrder(ws + [Window(next, size)], next + size)
  {
    var ws' := ws + [Window(next, size)];
    forall i | 0 <= i < |ws'| ensures WindowIn(ws'[i], next + size) {
      assert i < |ws| ==> WindowIn(ws[i], next);
    }
    forall i, j | 0 <= i < j < |ws'| ensures Before(ws'[i], ws'[j]) {
      assert j < |ws| ==> Before(ws[i], ws[j]);
      assert WindowIn(ws[i], next);
    }
  }

  /** The part of a device page before the first register. */
  function Offset(physical: nat): nat { physical % 4096 }

  /** The bytes a window spans: whole pages around the registers. */
  function WindowSpan(physical: nat, size: nat): nat { AlignUp(size + Offset(physical)) }

  function WindowPages(physical: nat, size: nat): nat { PageCount(size + Offset(physical)) }

  /** A device the page-table entries can address. */
  ghost predicate Addressable(physical: nat, size: nat) { physical + size + 8192 <= 0x10_0000_0000_0000 }

  /** The entry is present, writable, cache-disabled and global, and has no other low bit. */
  predicate DeviceAccess(e: nat) { e % 4096 == 1 + 2 + 16 + 256 }

  /** Address `base + k` reaches byte `k` of the device, with the access a device needs. */
  ghost predicate Reaches(flat: map<nat, nat>, base: nat, physical: nat, k: nat) {
    && Physical(flat, base + k) == physical + k
    && PageOf(base + k) in flat && DeviceAccess(flat[PageOf(base + k)])
  }

  ghost predicate AllReached(flat: map<nat, nat>, base: nat, physical: nat, size: nat) {
    forall k :: 0 <= k < size ==> Reaches(flat, base, physical, k)
  }

  /** A window over `[physical, physical + size)` mapped at `start`: its pages in order,
      every byte of the device behind it, and no other page touched. */
  ghost predicate WindowAt(flat: map<nat, nat>, flat': map<nat, nat>, start: nat, physical: nat, size: nat) {
    && Maps(flat', start, AlignDown(physical), WindowPages(physical, size))
    && AllReached(flat', start + Offset(physical), physical, size)
    && Elsewhere(flat, flat', start, WindowPages(physical, size))
  }

  /** None of the `n` pages at `start` is mapped. */
  ghost predicate Unmapped(flat: map<nat, nat>, start: nat, n: nat) {
    forall page: nat :: InWindow(start, n, page) ==> page !in flat
  }

  /** Only the first `done` of a window's pages got mapped. */
  ghost predicate PrefixAt(flat: map<nat, nat>, flat': map<nat, nat>, start: nat, physical: nat, size: nat, done: nat) {
    && done < WindowPages(physical, size)
    && flat' == FlatRange(flat, start, AlignDown(physical), MMIO_FLAGS, done)
    && Unmapped(flat, start, done)
  }

  /** The first `j` pages at `start` are unmapped, and their tables are more than the `pool`
      free pages. */
  ghost predicate DryAt(flat: map<nat, nat>, tables: set<seq<nat>>, pool: nat, start: nat, j: nat) {
    Unmapped(flat, start, j) && RangeCost(tables, start, j) > pool
  }

  /** Mapping the `n` pages at `start` in order runs out of pages for tables before it meets
      a mapped page. */
  ghost predicate RunsDry(flat: map<nat, nat>, tables: set<seq<nat>>, pool: nat, start: nat, n: nat) {
    exists j: nat :: j <= n && DryAt(flat, tables, pool, start, j)
  }

  lemma {:induction false} OneMoreUnmapped(flat: map<nat, nat>, start: nat, done: nat)
    requires Unmapped(flat, start, done) && PageOf(start + 4096 * done) !in flat
    ensures Unmapped(flat, start, done + 1)
  {
    forall page: nat | InWindow(start, done + 1, page)
      ensures page !in flat
    {
      assert page != PageOf(start + 4096 * done) ==> InWindow(start, done, page);
    }
  }

  /** Which of the three ends a mapping comes to, decided on the state before it. */
  lemma {:induction false} WindowOutcome(flat: map<nat, nat>, tables: set<seq<nat>>, pool: nat, start: nat, n: nat,
                                         r: MapResult, done: nat)
    requires done <= n && (r == Mapped <==> done == n)
    requires Unmapped(flat, start, done) && RangeCost(tables, start, done) <= pool
    requires r == Refused ==> PageOf(start + 4096 * done) in flat
    requires r == Halted ==> PageOf(start + 4096 * done) !in flat && RangeCost(tables, start, done + 1) > pool
    ensures r == Mapped <==> Unmapped(flat, start, n) && RangeCost(tables, start, n) <= pool
    ensures r == Halted <==> RunsDry(flat, tables, pool, start, n)
  {
    hide Unmapped, RangeCost;
    if r == Mapped {
      forall j: nat | j <= n
        ensures !DryAt(flat, tables, pool, start, j)
      {
        RangeCostMono(tables, start, j, n);
      }
    } else if r == Halted {
      OneMoreUnmapped(flat, start, done);
      RangeCostMono(tables, start, done + 1, n);
      assert DryAt(flat, tables, pool, start, done + 1);
    } else {
      forall j: nat | j <= n
        ensures !DryAt(flat, tables, pool, start, j)
      {
        RefusedNotDry(flat, tables, pool, start, done, j);
      }
      RefusedNotDry(flat, tables, pool, start, done, n);
    }
  }

  lemma {:induction false} RefusedNotDry(flat: map<nat, nat>, tables: set<seq<nat>>, pool: nat, start: nat, done: nat,
                                         j: nat)
    requires PageOf(start + 4096 * done) in flat && RangeCost(tables, start, done) <= pool
    ensures !DryAt(flat, tables, pool, start, j) && (done < j ==> !Unmapped(flat, start, j))
  {
    if done < j {
      assert InWindow(start, j, PageOf(start + 4096 * done));
    } else {
      RangeCostMono(tables, start, j, done);
    }
  }

  /** The pages a mapping left behind: none exactly when it stopped at the first. */
  lemma {:induction false} PrefixKeeps(flat: map<nat, nat>, start: nat, phys: nat, done: nat)
    requires 0xFFFF_0000_0000_0000 <= start && start + 4096 * done <= 0x1_0000_0000_0000_0000
    requires Unmapped(flat, start, done)
    ensures FlatRange(flat, start, phys, MMIO_FLAGS, done) == flat <==> done == 0
    ensures done > 0 ==> PageOf(start) !in flat
  {
    if done > 0 {
      RangePage(flat, start, phys, MMIO_FLAGS, done, 0);
      assert InWindow(start, done, PageOf(start + 4096 * 0));
    }
  }

  /** The page that stopped a mapping was mapped before, because the pages of a window differ. */
  lemma {:induction false} StoppedByMapped(flat: map<nat, nat>, start: nat, phys: nat, n: nat, done: nat)
    requires 0xFFFF_0000_0000_0000 <= start && start + 4096 * n <= 0x1_0000_0000_0000_0000 && done < n
    requires PageOf(start + 4096 * done) in FlatRange(flat, start, phys, MMIO_FLAGS, done)
    ensures PageOf(start + 4096 * done) in flat && !Unmapped(flat, start, n)
  {
    var page := PageOf(start + 4096 * done);
    assert InWindow(start, n, page);
    if InWindow(start, done, page) {
      var k :| 0 <= k < done && PageOf(start + 4096 * k) == page;
      PageOfHigh(start + 4096 * k);
      PageOfHigh(start + 4096 * done);
    }
    assert !InWindow(start, done, page);
    RangeElsewhere(flat, start, phys, MMIO_FLAGS, done, page);
  }

  lemma {:induction false} FreshPages(flat: map<nat, nat>, start: nat, done: nat)
    requires forall k :: 0 <= k < done ==> PageOf(start + 4096 * k) !in flat
    ensures Unmapped(flat, start, done)
  {
  }

  /** A mapping of some of a window's pages touches no page outside the window. */
  lemma {:induction false} PrefixElsewhere(flat: map<nat, nat>, start: nat, phys: nat, done: nat, n: nat)
    requires done <= n
    ensures Elsewhere(flat, FlatRange(flat, start, phys, MMIO_FLAGS, done), start, n)
  {
    forall page: nat | !InWindow(start, n, page)
      ensures SamePage(flat, FlatRange(flat, start, phys, MMIO_FLAGS, done), page)
    {
      assert forall i :: 0 <= i < done ==> PageOf(start + 4096 * i) != page;
      RangeElsewhere(flat, start, phys, MMIO_FLAGS, done, page);
    }
  }

  lemma {:induction false} SpanIsPages(physical: nat, size: nat)
    ensures WindowSpan(physical, size) == 4096 * WindowPages(physical, size)
    ensures WindowSpan(physical, size) % 4096 == 0
            && PageCount(WindowSpan(physical, size)) == WindowPages(physical, size)
    ensures size + Offset(physical) <= WindowSpan(physical, size) < size + Offset(physical) + 4096
    ensures physical == AlignDown(physical) + Offset(physical) && AlignDown(physical) % 4096 == 0
  {
  }

  /** A completely mapped range is a window. */
  lemma {:induction false} RangeIsWindow(flat: map<nat, nat>, s: nat, p: nat, offset: nat, size: nat)
    requires 0xF_FFF9_0000_0000 <= s && offset < 4096
    requires s + PageCount(size + offset) <= 0x10_0000_0000_0000
    requires 4096 * p + offset + size + 8192 <= 0x10_0000_0000_0000
    ensures var flat' := FlatRange(flat, 4096 * s, 4096 * p, MMIO_FLAGS, PageCount(size + offset));
            && Maps(flat', 4096 * s, 4096 * p, PageCount(size + offset))
            && Elsewhere(flat, flat', 4096 * s, PageCount(size + offset))
            && AllReached(flat', 4096 * s + offset, 4096 * p + offset, size)
  {
    var n := PageCount(size + offset);
    var flat' := FlatRange(flat, 4096 * s, 4096 * p, MMIO_FLAGS, n);
    forall i | 0 <= i < n
      ensures MapsPage(flat', 4096 * s, 4096 * p, i)
    {
      RangePage(flat, 4096 * s, 4096 * p, MMIO_FLAGS, n, i);
    }
    forall page: nat | !InWindow(4096 * s, n, page)
      ensures SamePage(flat, flat', page)
    {
      RangeElsewhere(flat, 4096 * s, 4096 * p, MMIO_FLAGS, n, page);
    }
    var base, physical := 4096 * s + offset, 4096 * p + offset;
    forall k | 0 <= k < size
      ensures Reaches(flat', base, physical, k)
    {
      ByteReached(flat', s, p, offset, n, k);
    }
  }

  lemma {:induction false} ByteReached(flat: map<nat, nat>, s: nat, p: nat, offset: nat, n: nat, k: nat)
    requires Maps(flat, 4096 * s, 4096 * p, n) && k + offset < 4096 * n
    requires 0xF_FFF0_0000_0000 <= s && s + n <= 0x10_0000_0000_0000 && p + n <= 0x100_0000_0000
    ensures Reaches(flat, 4096 * s + offset, 4096 * p + offset, k)
  {
    var i, r := (offset + k) / 4096, (offset + k) % 4096;
    assert offset + k == 4096 * i + r;
    assert MapsPage(flat, 4096 * s, 4096 * p, i);
    PageByte(flat, s, p, i, r);
    assert 4096 * (s + i) + r == 4096 * s + offset + k;
  }

  /** What a successful mapping of a window means, byte by byte. */
  lemma {:induction false} WindowMapped(flat: map<nat, nat>, start: nat, physical: nat, size: nat)
    requires MMIO_BASE <= start && start % 4096 == 0
    requires start + WindowSpan(physical, size) <= 0x1_0000_0000_0000_0000 && Addressable(physical, size)
    ensures WindowAt(flat, FlatRange(flat, start, AlignDown(physical), MMIO_FLAGS, WindowPages(physical, size)),
                     start, physical, size)
  {
    SpanIsPages(physical, size);
    var s, p := start / 4096, AlignDown(physical) / 4096;
    assert start == 4096 * s && AlignDown(physical) == 4096 * p;
    RangeIsWindow(flat, s, p, Offset(physical), size);
  }

  /** `flat` without the `n` pages at `start`. */
  ghost function WithoutRange(flat: map<nat, nat>, start: nat, n: nat): map<nat, nat> {
    if n == 0 then flat else WithoutRange(flat, start, n - 1) - {PageOf(start + 4096 * (n - 1))}
  }

  /** Destroying a window removes exactly its pages. */
  lemma {:induction false} WithoutRangePages(flat: map<nat, nat>, start: nat, n: nat, page: nat)
    ensures page in WithoutRange(flat, start, n) <==> page in flat && !InWindow(start, n, page)
    ensures page in WithoutRange(flat, start, n) ==> WithoutRange(flat, start, n)[page] == flat[page]
  {
    if n > 0 {
      WithoutRangePages(flat, start, n - 1, page);
      assert InWindow(start, n, page) <==> InWindow(start, n - 1, page) || PageOf(start + 4096 * (n - 1)) == page;
    }
  }

  /** Windows handed out at different times share no page. */
  lemma {:induction false} WindowsDisjoint(ws: seq<Window>, next: nat, a: nat, b: nat, page: nat)
    requires InOrder(ws, next) && next <= 0x1_0000_0000_0000_0000 && a < |ws| && b < |ws| && a != b
    ensures !InWindow(ws[a].start, ws[a].size / 4096, page) || !InWindow(ws[b].start, ws[b].size / 4096, page)
  {
    assert WindowIn(ws[a], next) && WindowIn(ws[b], next);
    if a < b {
      assert Before(ws[a], ws[b]);
      ApartPages(ws[a], ws[b], next, page);
    } else {
      assert Before(ws[b], ws[a]);
      ApartPages(ws[b], ws[a], next, page);
    }
  }

  lemma {:induction false} ApartPages(v: Window, w: Window, next: nat, page: nat)
    requires WindowIn(v, next) && WindowIn(w, next) && next <= 0x1_0000_0000_0000_0000 && Before(v, w)
    ensures !InWindow(v.start, v.size / 4096, page) || !InWindow(w.start, w.size / 4096, page)
  {
    if InWindow(v.start, v.size / 4096, page) && InWindow(w.start, w.size / 4096, page) {
      var i :| 0 <= i < v.size / 4096 && PageOf(v.start + 4096 * i) == page;
      var j :| 0 <= j < w.size / 4096 && PageOf(w.start + 4096 * j) == page;
      PageOfHigh(v.start + 4096 * i);
      PageOfHigh(w.start + 4096 * j);
    }
  }

  /** Mapping or destroying one window leaves every other window mapped as it was. */
  lemma {:induction false} OtherWindowsKept(flat: map<nat, nat>, flat': map<nat, nat>, ws: seq<Window>, next: nat,
                                            a: nat, b: nat, phys: nat)
    requires InOrder(ws, next) && next <= 0x1_0000_0000_0000_0000 && a < |ws| && b < |ws| && a != b
    requires Maps(flat, ws[a].start, phys, ws[a].size / 4096)
    requires Elsewhere(flat, flat', ws[b].start, ws[b].size / 4096)
    ensures Maps(flat', ws[a].start, phys, ws[a].size / 4096)
  {
    forall i | 0 <= i < ws[a].size / 4096
      ensures MapsPage(flat', ws[a].start, phys, i)
    {
      var page := PageOf(ws[a].start + 4096 * i);
      assert InWindow(ws[a].start, ws[a].size / 4096, page);
      WindowsDisjoint(ws, next, a, b, page);
      assert SamePage(flat, flat', page);
      assert MapsPage(flat, ws[a].start, phys, i);
    }
  }

  lemma {:induction false} DestroyElsewhere(flat: map<nat, nat>, start: nat, n: nat)
    ensures Elsewhere(flat, WithoutRange(flat, start, n), start, n)
  {
    forall page: nat | !InWindow(start, n, page)
      ensures SamePage(flat, WithoutRange(flat, start, n), page)
    {
      WithoutRangePages(flat, start, n, page);
    }
  }

  /** Destroying a window whose pages were not mapped before it restores the address space. */
  lemma {:induction false} WindowUndone(flat: map<nat, nat>, flat': map<nat, nat>, start: nat, n: nat)
    requires Elsewhere(flat, flat', start, n) && Unmapped(flat, start, n)
    ensures WithoutRange(flat', start, n) == flat
  {
    var back := WithoutRange(flat', start, n);
    forall page: nat
      ensures (page in back <==> page in flat) && (page in flat ==> back[page] == flat[page])
    {
      WithoutRangePages(flat', start, n, page);
      assert InWindow(start, n, page) || SamePage(flat, flat', page);
    }
  }

  // ---------------------------------------------------------------- live windows

  datatype Device = Device(physical: nat, size: nat)

  /** The window maps the pages around the device, in order. */
  ghost predicate Serves(flat: map<nat, nat>, w: Window, d: Device) {
    && Addressable(d.physical, d.size) && w.size == WindowSpan(d.physical, d.size)
    && Maps(flat, w.start, AlignDown(d.physical), WindowPages(d.physical, d.size))
  }

  ghost predicate ServesAt(flat: map<nat, nat>, ws: seq<Window>, live: map<nat, Device>, i: nat)
    requires i in live
  {
    i < |ws| && Serves(flat, ws[i], live[i])
  }

  /** Every live window, by its position among those handed out, serves its device. */
  ghost predicate AllServed(flat: map<nat, nat>, ws: seq<Window>, live: map<nat, Device>) {
    forall i :: i in live ==> ServesAt(flat, ws, live, i)
  }

  /** A live window reaches every byte of its device. */
  lemma {:induction false} LiveReaches(flat: map<nat, nat>, ws: seq<Window>, next: nat, live: map<nat, Device>, i: nat)
    requires InOrder(ws, next) && next <= 0x1_0000_0000_0000_0000 && AllServed(flat, ws, live) && i in live
    ensures i < |ws| && AllReached(flat, ws[i].start + Offset(live[i].physical), live[i].physical, live[i].size)
  {
    hide Physical, Maps, WindowSpan, WindowPages, Reaches;
    assert ServesAt(flat, ws, live, i);
    var w, d := ws[i], live[i];
    assert WindowIn(w, next);
    SpanIsPages(d.physical, d.size);
    var s, p, base, physical := w.start / 4096, AlignDown(d.physical) / 4096, w.start + Offset(d.physical), d.physical;
    assert w.start == 4096 * s && AlignDown(physical) == 4096 * p;
    forall k | 0 <= k < d.size
      ensures Reaches(flat, base, physical, k)
    {
      ByteReached(flat, s, p, Offset(physical), WindowPages(physical, d.size), k);
    }
  }

  /** Changing pages of one window only leaves every other live window serving its device. */
  lemma {:induction false} OthersServed(flat: map<nat, nat>, flat': map<nat, nat>, ws: seq<Window>, next: nat,
                                        live: map<nat, Device>, b: nat)
    requires InOrder(ws, next) && next <= 0x1_0000_0000_0000_0000 && AllServed(flat, ws, live)
    requires b < |ws| && b !in live && Elsewhere(flat, flat', ws[b].start, ws[b].size / 4096)
    ensures AllServed(flat', ws, live)
  {
    forall i | i in live
      ensures ServesAt(flat', ws, live, i)
    {
      assert ServesAt(flat, ws, live, i);
      SpanIsPages(live[i].physical, live[i].size);
      OtherWindowsKept(flat, flat', ws, next, i, b, AlignDown(live[i].physical));
    }
  }

  lemma {:induction false} NextIsFree(flat: map<nat, nat>, ws: seq<Window>, live: map<nat, Device>)
    requires AllServed(flat, ws, live)
    ensures |ws| !in live
  {
    forall i | i in live
      ensures i < |ws|
    {
      assert ServesAt(flat, ws, live, i);
    }
  }

  lemma {:induction false} MoreWindows(flat: map<nat, nat>, ws: seq<Window>, w: Window, live: map<nat, Device>)
    requires AllServed(flat, ws, live)
    ensures AllServed(flat, ws + [w], live)
  {
    forall i | i in live
      ensures ServesAt(flat, ws + [w], live, i)
    {
      assert ServesAt(flat, ws, live, i);
    }
  }

  lemma {:induction false} OneMoreServed(flat: map<nat, nat>, ws: seq<Window>, live: map<nat, Device>, b: nat,
                                         d: Device)
    requires AllServed(flat, ws, live) && b < |ws| && Serves(flat, ws[b], d)
    ensures AllServed(flat, ws, live[b := d])
  {
    var live' := live[b := d];
    forall i | i in live'
      ensures ServesAt(flat, ws, live', i)
    {
      assert i != b ==> ServesAt(flat, ws, live, i);
    }
  }

  lemma {:induction false} FewerServed(flat: map<nat, nat>, ws: seq<Window>, live: map<nat, Device>, b: nat)
    requires AllServed(flat, ws, live)
    ensures AllServed(flat, ws, live - {b})
  {
    var live' := live - {b};
    forall i | i in live'
      ensures ServesAt(flat, ws, live', i)
    {
      assert ServesAt(flat, ws, live, i);
    }
  }

  // ---------------------------------------------------------------- the area and its windows

  /** The bump pointer over the MMIO area, the windows handed out so far, and the devices
      of those that are live. */
  class MmioArea {
    const space: AddressSpace
    var nextMMIOVirt: nat
    ghost var windows: seq<Window>
    ghost var live: map<nat, Device>

    ghost predicate Ordered()
      reads this, space, space.pm, space.pm.bitmap, space.memory
    {
      && space.Valid()
      && MMIO_BASE <= nextMMIOVirt <= 0x1_0000_0000_0000_0000 && nextMMIOVirt % 4096 == 0
      && InOrder(windows, nextMMIOVirt)
    }

    /** In particular every live window still serves its device. */
    ghost predicate Valid()
      reads this, space, space.pm, space.pm.bitmap, space.memory
    {
      Ordered() && AllServed(space.flat, windows, live)
    }

    constructor (space: AddressSpace)
      requires space.Valid()
      ensures Valid() && this.space == space && windows == [] && live == map[] && nextMMIOVirt == MMIO_BASE
    {
      this.space, this.nextMMIOVirt, this.windows, this.live := space, MMIO_BASE, [], map[];
    }

    /** Moves the bump pointer past a new window. */
    method Reserve(size: nat) returns (start: nat)
      requires Valid() && size % 4096 == 0 && nextMMIOVirt + size <= 0x1_0000_0000_0000_0000
      modifies this`nextMMIOVirt, this`windows
      ensures Valid() && start == old(nextMMIOVirt) && nextMMIOVirt == start + size
      ensures windows == old(windows) + [Window(start, size)]
    {
      hide AllServed, WindowIn, Before;
      NextInOrder(windows, nextMMIOVirt, size);
      start := nextMMIOVirt;
      MoreWindows(space.flat, windows, Window(start, size), live);
      windows := windows + [Window(start, size)];
      nextMMIOVirt := nextMMIOVirt + size;
    }

    /** Maps a reserved window: it becomes live exactly when none of its pages is mapped and
        the page tables they lack can be had. It is refused at a mapped page, which leaves
        nothing behind exactly when that is the first one. */
    method MapWindow(start: nat, physical: nat, size: nat, ghost slot: nat) returns (r: MapResult, ghost done: nat)
      requires Valid() && Addressable(physical, size)
      requires slot < |windows| && slot !in live && windows[slot] == Window(start, WindowSpan(physical, size))
      modifies this`live, space`path, space`flat, space.pm, space.pm.bitmap, space.memory
      ensures Valid()
      ensures r == Mapped <==>
                && Unmapped(old(space.flat), start, WindowPages(physical, size))
                && RangeCost(old(Tables(space.path)), start, WindowPages(physical, size)) <= old(space.pm.freePages)
      ensures r == Halted <==>
                RunsDry(old(space.flat), old(Tables(space.path)), old(space.pm.freePages), start,
                        WindowPages(physical, size))
      ensures r == Mapped ==>
                && WindowAt(old(space.flat), space.flat, start, physical, size)
                && live == old(live)[slot := Device(physical, size)]
      ensures r != Mapped ==> live == old(live) && PrefixAt(old(space.flat), space.flat, start, physical, size, done)
      ensures r == Refused ==>
                && PageOf(start + 4096 * done) in old(space.flat)
                && (space.flat == old(space.flat) <==> PageOf(start) in old(space.flat))
    {
      hide AllServed, AllReached, Maps, Elsewhere, Unmapped, WindowSpan, WindowPages, AlignDown, Addressable, Before;
      hide PageOf;
      hide Tables, RangeCost, RunsDry, Tree, Refines;
      ghost var flat, tables, pool := space.flat, Tables(space.path), space.pm.freePages;
      SpanIsPages(physical, size);
      assert WindowIn(windows[slot], nextMMIOVirt);
      WindowMapped(flat, start, physical, size);
      r, done := space.MapRange(start, AlignDown(physical), WindowSpan(physical, size), MMIO_FLAGS);
      FreshPages(flat, start, done);
      PrefixElsewhere(flat, start, AlignDown(physical), done, WindowPages(physical, size));
      WindowSlots(windows[slot], physical, size);
      OthersServed(flat, space.flat, windows, nextMMIOVirt, live, slot);
      if r == Mapped {
        IsServed(flat, space.flat, windows[slot], physical, size);
        OneMoreServed(space.flat, windows, live, slot, Device(physical, size));
        live := live[slot := Device(physical, size)];
      } else if r == Refused {
        StoppedByMapped(flat, start, AlignDown(physical), WindowPages(physical, size), done);
      }
      PrefixKeeps(flat, start, AlignDown(physical), done);
      WindowOutcome(flat, tables, pool, start, WindowPages(physical, size), r, done);
    }

    method UnmapNth(start: nat, i: nat)
      requires Ordered() && start % 4096 == 0
      modifies space`path, space`flat, space.pm, space.pm.bitmap, space.memory
      ensures Ordered() && space.flat == old(space.flat) - {PageOf(start + 4096 * i)}
    {
      assert (start + 4096 * i) % 4096 == 0;
      var _ := space.UnmapPage(start + 4096 * i);
    }

    /** Unmaps the pages of a window that is not live any more, whether they are mapped or
        not; every live window stays. */
    method UnmapWindow(start: nat, size: nat, ghost slot: nat)
      requires Valid() && slot < |windows| && slot !in live && windows[slot] == Window(start, size)
      modifies space`path, space`flat, space.pm, space.pm.bitmap, space.memory
      ensures Valid() && space.flat == WithoutRange(old(space.flat), start, size / 4096)
      ensures Elsewhere(old(space.flat), space.flat, start, size / 4096)
    {
      hide AllServed, Elsewhere, Before, PageOf, Tree, Refines;
      assert WindowIn(windows[slot], nextMMIOVirt);
      var i: nat := 0;
      while 4096 * i < size
        invariant 4096 * i <= size && Ordered()
        invariant space.flat == WithoutRange(old(space.flat), start, i)
        decreases size - 4096 * i
      {
        UnmapNth(start, i);
        i := i + 1;
      }
      DestroyElsewhere(old(space.flat), start, size / 4096);
      OthersServed(old(space.flat), space.flat, windows, nextMMIOVirt, live, slot);
    }
  }

  lemma {:induction false} WindowSlots(w: Window, physical: nat, size: nat)
    requires w.size == WindowSpan(physical, size)
    ensures w.size / 4096 == WindowPages(physical, size)
  {
    SpanIsPages(physical, size);
  }

  lemma {:induction false} IsServed(flat: map<nat, nat>, flat': map<nat, nat>, w: Window, physical: nat, size: nat)
    requires Addressable(physical, size) && w.size == WindowSpan(physical, size)
    requires WindowAt(flat, flat', w.start, physical, size)
    ensures Serves(flat', w, Device(physical, size))
  {
  }

  /** A mapped window; all three fields are 0 when the mapping failed, which left `kept` pages
      mapped. A missing page table halts the kernel, so then no window is ever seen. */
  class Interface {
    const area: MmioArea
    var base: nat
    var mappingBase: nat
    var mappedSize: nat
    ghost const slot: nat
    ghost const halted: bool
    ghost const kept: nat

    /** The window is live in its area; one without an address never was. */
    ghost predicate Valid()
      reads this, area
    {
      && (base == 0 <==> mappingBase == 0) && slot < |area.windows|
      && (mappingBase == 0 ==> slot !in area.live)
      && (mappingBase != 0 ==> area.windows[slot] == Window(mappingBase, mappedSize) && slot in area.live)
    }

    /** Maps the pages around `[physical, physical + size)` at the next free addresses:
        exactly when none of them is mapped and their page tables can be had. A refused
        mapping was stopped by a mapped page and keeps the pages before it: none exactly
        when the first one is mapped. */
    constructor (area: MmioArea, physical: nat, size: nat)
      requires area.Valid() && Addressable(physical, size)
      requires area.nextMMIOVirt + WindowSpan(physical, size) <= 0x1_0000_0000_0000_0000
      modifies area`nextMMIOVirt, area`windows, area`live
      modifies area.space`path, area.space`flat, area.space.pm, area.space.pm.bitmap, area.space.memory
      ensures area.Valid() && Valid() && this.area == area && slot == |old(area.windows)|
      ensures area.nextMMIOVirt == old(area.nextMMIOVirt) + WindowSpan(physical, size)
      ensures area.windows == old(area.windows) + [Window(old(area.nextMMIOVirt), WindowSpan(physical, size))]
      ensures base != 0 <==>
                && Unmapped(old(area.space.flat), old(area.nextMMIOVirt), WindowPages(physical, size))
                && RangeCost(old(Tables(area.space.path)), old(area.nextMMIOVirt), WindowPages(physical, size))
                   <= old(area.space.pm.freePages)
      ensures halted <==>
              RunsDry(old(area.space.flat), old(Tables(area.space.path)), old(area.space.pm.freePages),
                      old(area.nextMMIOVirt), WindowPages(physical, size))
      ensures halted ==> base == 0
      ensures base != 0 ==>
                && mappingBase == old(area.nextMMIOVirt) && mappedSize == WindowSpan(physical, size)
                && base == mappingBase + Offset(physical)
                && WindowAt(old(area.space.flat), area.space.flat, mappingBase, physical, size)
                && area.live == old(area.live)[slot := Device(physical, size)]
      ensures base == 0 ==>
                && mappingBase == 0 && mappedSize == 0 && area.live == old(area.live)
                && PrefixAt(old(area.space.flat), area.space.flat, old(area.nextMMIOVirt), physical, size, kept)
      ensures base == 0 && !halted ==>
                && PageOf(old(area.nextMMIOVirt) + 4096 * kept) in old(area.space.flat)
                && (area.space.flat == old(area.space.flat) <==> PageOf(old(area.nextMMIOVirt)) in old(area.space.flat))
    {
      SpanIsPages(physical, size);
      hide WindowAt, PrefixAt, Unmapped, WindowSpan, Addressable, InOrder, AllServed, WindowPages;
      hide Tables, RangeCost, RunsDry, PageOf, Tree, Refines;
      ghost var n := |area.windows|;
      NextIsFree(area.space.flat, area.windows, area.live);
      var start := area.Reserve(WindowSpan(physical, size));
      var r;
      ghost var done;
      r, done := area.MapWindow(start, physical, size, n);
      this.area, this.slot, this.halted, this.kept := area, n, r == Halted, done;
      if r == Mapped {
        mappingBase, mappedSize, base := start, WindowSpan(physical, size), start + Offset(physical);
      } else {
        mappingBase, mappedSize, base := 0, 0, 0;
      }
    }

    /** Unmaps the window's pages and no others; a failed window has none. Every other live
        window stays live and mapped. */
    method Destroy()
      requires area.Valid() && Valid()
      modifies area`live, area.space`path, area.space`flat, area.space.pm, area.space.pm.bitmap, area.space.memory
      ensures area.Valid() && area.live == old(area.live) - {slot}
      ensures var n := if mappingBase == 0 then 0 else mappedSize / 4096;
              && area.space.flat == WithoutRange(old(area.space.flat), mappingBase, n)
              && Elsewhere(old(area.space.flat), area.space.flat, mappingBase, n)
    {
      hide AllServed, InOrder, Elsewhere;
      DestroyElsewhere(area.space.flat, mappingBase, 0);
      FewerServed(area.space.flat, area.windows, area.live, slot);
      area.live := area.live - {slot};
      if mappingBase == 0 || mappedSize == 0 {
        return;
      }
      area.UnmapWindow(mappingBase, mappedSize, slot);
    }
  }

  /** The lifetime of an interface. Unless the kernel halts it leaves the address space as it
      was exactly when no page of the window was mapped before, or the first one was. */
  method Scoped(area: MmioArea, physical: nat, size: nat) returns (base: nat, ghost halted: bool)
    requires area.Valid() && Addressable(physical, size)
    requires area.nextMMIOVirt + WindowSpan(physical, size) <= 0x1_0000_0000_0000_0000
    modifies area`nextMMIOVirt, area`windows, area`live
    modifies area.space`path, area.space`flat, area.space.pm, area.space.pm.bitmap, area.space.memory
    ensures area.Valid() && area.live == old(area.live)
    ensures halted <==>
            RunsDry(old(area.space.flat), old(Tables(area.space.path)), old(area.space.pm.freePages),
                    old(area.nextMMIOVirt), WindowPages(physical, size))
    ensures base != 0 ==> area.space.flat == old(area.space.flat)
    ensures !halted ==>
              (base != 0 <==> Unmapped(old(area.space.flat), old(area.nextMMIOVirt), WindowPages(physical, size)))
    ensures !halted ==>
              (area.space.flat == old(area.space.flat) <==>
               || Unmapped(old(area.space.flat), old(area.nextMMIOVirt), WindowPages(physical, size))
               || PageOf(old(area.nextMMIOVirt)) in old(area.space.flat))
  {
    hide AllReached, Maps, Elsewhere, Unmapped, WindowSpan, WindowPages, Addressable, InOrder, AllServed, PrefixAt;
    hide Tables, RangeCost, PageOf, Tree, Refines;
    ghost var flat, live := area.space.flat, area.live;
    NotDryIff(flat, Tables(area.space.path), area.space.pm.freePages, area.nextMMIOVirt, WindowPages(physical, size));
    NextIsFree(flat, area.windows, live);
    var window := new Interface(area, physical, size);
    base, halted := window.base, window.halted;
    if base != 0 {
      WindowSlots(Window(window.mappingBase, window.mappedSize), physical, size);
      WindowUndone(flat, area.space.flat, window.mappingBase, WindowPages(physical, size));
    }
    window.Destroy();
  }

  /** Where nothing is mapped, a mapping that does not run dry can pay for all its tables. */
  lemma {:induction false} NotDryIff(flat: map<nat, nat>, tables: set<seq<nat>>, pool: nat, start: nat, n: nat)
    ensures RunsDry(flat, tables, pool, start, n) || (Unmapped(flat, start, n) ==> RangeCost(tables, start, n) <= pool)
  {
    if Unmapped(flat, start, n) && RangeCost(tables, start, n) > pool {
      assert DryAt(flat, tables, pool, start, n);
    }
  }

  /** The first two pages of the area, under one last-level table. */
  lemma {:induction false} BasePages()
    ensures PageOf(MMIO_BASE) == 0x9_0000_0000 && PageOf(MMIO_BASE + 4096) == 0x9_0000_0001
    ensures TablePath(MMIO_BASE + 4096) == TablePath(MMIO_BASE)
  {
    PageOfHigh(MMIO_BASE);
    PageOfHigh(MMIO_BASE + 4096);
  }

  /** With the second page mapped, mapping both stops there without needing a table. */
  lemma {:induction false} SecondPageStops(flat: map<nat, nat>, tables: set<seq<nat>>, pool: nat)
    requires PageOf(MMIO_BASE + 4096) in flat && Missing(tables, TablePath(MMIO_BASE)) == 0
    ensures !Unmapped(flat, MMIO_BASE, 2) && !RunsDry(flat, tables, pool, MMIO_BASE, 2)
  {
    hide PageOf, TablePath, Missing;
    assert RangeCost(tables, MMIO_BASE, 0) == 0;
    assert MissingAt(tables, MMIO_BASE, 0) == 0;
    forall j: nat | j <= 2
      ensures !DryAt(flat, tables, pool, MMIO_BASE, j)
    {
      RefusedNotDry(flat, tables, pool, MMIO_BASE, 1, j);
    }
    assert InWindow(MMIO_BASE, 2, PageOf(MMIO_BASE + 4096 * 1));
  }

  lemma {:induction false} OnePage(flat: map<nat, nat>, virt: nat, phys: nat)
    ensures FlatRange(flat, virt, phys, MMIO_FLAGS, 1) == flat[PageOf(virt) := Pte(phys, MMIO_FLAGS)]
  {
    assert FlatRange(flat, virt, phys, MMIO_FLAGS, 0) == flat;
  }

  lemma {:induction false} CompletePath(tables: set<seq<nat>>, ix: seq<nat>)
    requires |ix| == 3
    ensures Missing(tables, ix) <= 3 && Missing(WithPath(tables, ix), ix) == 0
  {
  }

  /** An address space in which only the second page of the area is mapped. */
  method SecondPageMapped(pm: PhysicalMemory, memory: array<Table>) returns (space: AddressSpace)
    requires pm.Valid() && memory as object != pm.bitmap as object
    requires memory.Length == pm.totalPages <= 0x100_0000_0000 && pm.freePages >= 4
    modifies pm, pm.bitmap, memory
    ensures space.Valid() && fresh(space) && space.pm == pm && space.memory == memory
    ensures space.flat == map[PageOf(MMIO_BASE + 4096) := Pte(0x5000, MMIO_FLAGS)]
    ensures Missing(Tables(space.path), TablePath(MMIO_BASE)) == 0
  {
    hide PageOf, TablePath, Tables, Missing, WithPath, Pte, Tree, Refines;
    space := new AddressSpace(pm, memory);
    BasePages();
    CompletePath(Tables(space.path), TablePath(MMIO_BASE));
    var r := space.MapPage(0xFFFF_9000_0000_1000, 0x5000, MMIO_FLAGS);
  }

  /** There an interface over two pages is refused and leaves the first one mapped. */
  method RefusedLeavesPage(pm: PhysicalMemory, memory: array<Table>) returns (window: Interface)
    requires pm.Valid() && memory as object != pm.bitmap as object
    requires memory.Length == pm.totalPages <= 0x100_0000_0000 && pm.freePages >= 4
    modifies pm, pm.bitmap, memory
    ensures window.base == 0 && !window.halted
    ensures window.area.space.flat == map[PageOf(MMIO_BASE + 4096) := Pte(0x5000, MMIO_FLAGS),
                                          PageOf(MMIO_BASE) := Pte(0x8000, MMIO_FLAGS)]
  {
    hide PageOf, TablePath, Tables, Missing, Pte, Unmapped, RunsDry, InOrder, AllServed, RangeCost, Tree, Refines;
    hide WindowAt;
    var space := SecondPageMapped(pm, memory);
    BasePages();
    var area := new MmioArea(space);
    SecondPageStops(space.flat, Tables(space.path), pm.freePages);
    assert WindowPages(0x8000, 0x2000) == 2 && WindowSpan(0x8000, 0x2000) == 0x2000 && AlignDown(0x8000) == 0x8000;
    OnePage(space.flat, MMIO_BASE, 0x8000);
    window := new Interface(area, 0x8000, 0x2000);
    assert window.kept == 1;
  }
}
