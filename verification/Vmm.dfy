/** Four-level page tables over the page allocator, proved to be one flat map. */
module Vmm {
  import opened Bits
  import opened Options
  import opened Pmm

  type Table = seq<nat>

  // ---------------------------------------------------------------- page-table entries

  const PAGE_SHIFT: nat := 12
  const FRAME_BITS: nat := 40

  predicate Present(e: nat) { e % 2 == 1 }

  predicate Writable(e: nat) { e / 2 % 2 == 1 }

  /** Bits 12 to 51: the frame an entry or address names. */
  function FrameOf(e: nat): nat { Low(Shr(e, PAGE_SHIFT), FRAME_BITS) }

  lemma {:induction false} FrameBound(e: nat)
    ensures FrameOf(e) < 0x100_0000_0000
  {
    LowBound(Shr(e, PAGE_SHIFT), FRAME_BITS);
    FieldSizes();
  }

  /** The frame field as a division and a remainder. */
  lemma {:induction false} FrameOfIsField(e: nat)
    ensures FrameOf(e) == e / 4096 % 0x100_0000_0000
  {
    ShrIsDiv(e, PAGE_SHIFT);
    LowIsMod(Shr(e, PAGE_SHIFT), FRAME_BITS);
    FieldSizes();
  }

  lemma {:induction false} FieldSizes()
    ensures Pow2(PAGE_SHIFT) == 4096 && Pow2(FRAME_BITS) == 0x100_0000_0000
  {
    assert Pow2(10) == 1024;
    assert Pow2(20) == 1024 * 1024;
    assert Pow2(30) == 1024 * 1024 * 1024;
  }

  lemma {:induction false} FrameOfPage(f: nat)
    requires f < 0x100_0000_0000
    ensures FrameOf(4096 * f) == f
  {
    FrameOfIsField(4096 * f);
  }

  /** The entry a mapping stores: address bits, flags and the present bit. */
  function Pte(phys: nat, flags: nat): nat {
    Or(Or(4096 * FrameOf(phys), flags), 1)
  }

  lemma {:induction false} PtePresent(phys: nat, flags: nat)
    ensures Present(Pte(phys, flags))
  {
    OrHalves(Or(4096 * FrameOf(phys), flags), 1);
  }

  /** The frame read back is the mapped one exactly when the flags bring no address
      bit of their own; flags outside the address field always qualify. */
  lemma {:induction false} PteFrameIff(phys: nat, flags: nat)
    ensures FrameOf(Pte(phys, flags)) == FrameOf(phys) <==> Or(FrameOf(phys), FrameOf(flags)) == FrameOf(phys)
    ensures FrameOf(flags) == 0 ==> FrameOf(Pte(phys, flags)) == FrameOf(phys)
  {
    PteFrame(phys, flags);
  }

  lemma {:induction false} PteFrame(phys: nat, flags: nat)
    ensures FrameOf(Pte(phys, flags)) == Or(FrameOf(phys), FrameOf(flags))
  {
    hide Or, FrameOf;
    var a, f := 4096 * FrameOf(phys), FrameOf(phys);
    FrameOr(Or(a, flags), 1);
    FrameOr(a, flags);
    FrameOfIsField(phys);
    FrameOfPage(f);
    FrameOfIsField(1);
    OrZero(Or(FrameOf(phys), FrameOf(flags)));
  }

  /** The fields of a stored entry: the frame bits are the address's and the flags'; below
      them the flags and the present bit, above them the flags. */
  ghost predicate EntryFields(e: nat, phys: nat, flags: nat) {
    && Low(e, 12) == Or(Low(flags, 12), 1)
    && FrameOf(e) == Or(FrameOf(phys), FrameOf(flags))
    && Shr(e, 52) == Shr(flags, 52)
  }

  lemma {:induction false} PteFields(phys: nat, flags: nat)
    ensures EntryFields(Pte(phys, flags), phys, flags)
    ensures Writable(Pte(phys, flags)) <==> Writable(flags)
  {
    hide Or, Low, Shr, FrameOf;
    var a := 4096 * FrameOf(phys);
    PteFrame(phys, flags);
    FrameBound(phys);
    AddressBits(FrameOf(phys));
    OrLow(Or(a, flags), 1, 12);
    OrLow(a, flags, 12);
    OrShr(Or(a, flags), 1, 52);
    OrShr(a, flags, 52);
    PresentBits();
    OrZero(Low(flags, 12));
    OrZero(Shr(flags, 52));
    PteSecondBit(phys, flags);
  }

  lemma {:induction false} PteSecondBit(phys: nat, flags: nat)
    ensures Pte(phys, flags) / 2 % 2 == flags / 2 % 2
  {
    var a := 4096 * FrameOf(phys);
    OrHalves(Or(a, flags), 1);
    OrHalves(Or(a, flags) / 2, 0);
    OrHalves(a, flags);
    OrHalves(a / 2, flags / 2);
    assert a / 2 == 2048 * FrameOf(phys);
  }

  lemma {:induction false} PresentBits()
    ensures Low(1, 12) == 1 && Shr(1, 52) == 0
  {
    LowOfSmall(1, 12);
    ShrSmall(1, 1, 52);
  }

  /** A page address below bit 52 has no other bits. */
  lemma {:induction false} AddressBits(f: nat)
    requires f < 0x100_0000_0000
    ensures Low(4096 * f, 12) == 0 && Shr(4096 * f, 52) == 0
  {
    FieldSizes();
    LowOfMultiple(f, 12, 12);
    ShrBeyond(f, FRAME_BITS, 12, 52);
  }

  lemma {:induction false} FrameOr(a: nat, b: nat)
    ensures FrameOf(Or(a, b)) == Or(FrameOf(a), FrameOf(b))
  {
    OrShr(a, b, PAGE_SHIFT);
    OrLow(Shr(a, PAGE_SHIFT), Shr(b, PAGE_SHIFT), FRAME_BITS);
  }

  // ---------------------------------------------------------------- virtual pages

  /** The `n` base-512 digits of a page number, most significant first: the index it
      takes at each level. */
  function Digits(page: nat, n: nat): (r: seq<nat>)
    ensures |r| == n
    ensures forall i :: 0 <= i < n ==> r[i] < 512
  {
    if n == 0 then [] else Digits(page / 512, n - 1) + [page % 512]
  }

  function Pow512(n: nat): nat {
    if n == 0 then 1 else 512 * Pow512(n - 1)
  }

  /** Pages that take the same index at every level are the same page. */
  lemma {:induction false} DigitsInjective(p: nat, q: nat, n: nat)
    requires p < Pow512(n) && q < Pow512(n) && Digits(p, n) == Digits(q, n)
    ensures p == q
  {
    if n > 0 {
      assert Digits(p, n)[..n - 1] == Digits(p / 512, n - 1) && Digits(q, n)[..n - 1] == Digits(q / 512, n - 1);
      assert Digits(p, n)[n - 1] == p % 512 && Digits(q, n)[n - 1] == q % 512;
      DigitsInjective(p / 512, q / 512, n - 1);
    }
  }

  const PAGE_BITS: nat := 36

  /** The key a translation depends on: address bits 12 to 47. */
  function PageOf(virt: nat): (r: nat)
    ensures r < 0x10_0000_0000
  {
    PageBitsBound(virt);
    Low(Shr(virt, PAGE_SHIFT), PAGE_BITS)
  }

  lemma {:induction false} PageBitsBound(virt: nat)
    ensures Low(Shr(virt, PAGE_SHIFT), PAGE_BITS) == virt / 4096 % 0x10_0000_0000
  {
    ShrIsDiv(virt, PAGE_SHIFT);
    LowIsMod(Shr(virt, PAGE_SHIFT), PAGE_BITS);
    FieldSizes();
    assert Pow2(30) == 1024 * 1024 * 1024 && Pow2(36) == 64 * Pow2(30);
  }

  /** The indices of the four levels, as the walk takes them from the address. */
  function Pml4Index(virt: nat): nat { virt / 0x80_0000_0000 % 512 }
  function PdptIndex(virt: nat): nat { virt / 0x4000_0000 % 512 }
  function PdIndex(virt: nat): nat { virt / 0x20_0000 % 512 }
  function PtIndex(virt: nat): nat { virt / 0x1000 % 512 }

  lemma {:induction false} IndicesAreDigits(virt: nat)
    ensures Digits(PageOf(virt) / 512, 3) == [Pml4Index(virt), PdptIndex(virt), PdIndex(virt)]
    ensures PageOf(virt) % 512 == PtIndex(virt)
  {
    var x, p := virt / 4096, PageOf(virt) / 512;
    PageBitsBound(virt);
    LowDigits(x);
    AddressDigits(virt);
    assert Digits(p / 512 / 512, 1) == [p / 512 / 512 % 512] by {
      assert Digits(p / 512 / 512 / 512, 0) == [];
    }
    assert Digits(p / 512, 2) == [p / 512 / 512 % 512, p / 512 % 512];
  }

  /** At the top of the address space the page key is the page number less a constant. */
  lemma {:induction false} PageOfHigh(virt: nat)
    requires 0xFFFF_0000_0000_0000 <= virt < 0x1_0000_0000_0000_0000
    ensures PageOf(virt) == virt / 4096 - 0xF_FFF0_0000_0000
  {
    PageBitsBound(virt);
    var y := virt / 4096 - 0xF_FFF0_0000_0000;
    assert virt / 4096 == 0x10_0000_0000 * 0xFFFF + y;
  }

  /** The low 36 bits keep the low four digits. */
  lemma {:induction false} LowDigits(x: nat)
    ensures var y := x % 0x10_0000_0000;
            && y % 512 == x % 512
            && y / 512 % 512 == x / 512 % 512
            && y / 512 / 512 % 512 == x / 512 / 512 % 512
            && y / 512 / 512 / 512 % 512 == x / 512 / 512 / 512 % 512
  {
    var q, y := x / 0x10_0000_0000, x % 0x10_0000_0000;
    assert x == 512 * (512 * (512 * (512 * q))) + y;
    assert x / 512 == 512 * (512 * (512 * q)) + y / 512;
    assert x / 512 / 512 == 512 * (512 * q) + y / 512 / 512;
    assert x / 512 / 512 / 512 == 512 * q + y / 512 / 512 / 512;
  }

  lemma {:induction false} AddressDigits(virt: nat)
    ensures virt / 4096 / 512 == virt / 0x20_0000
    ensures virt / 4096 / 512 / 512 == virt / 0x4000_0000
    ensures virt / 4096 / 512 / 512 / 512 == virt / 0x80_0000_0000
  {
  }

  /** On 64-bit words those quotients and remainders are the shifts and masks of the code. */
  lemma {:induction false} IndicesAreShifts(v: bv64)
    ensures (v >> 39) & 0x1FF == (v / 0x80_0000_0000) % 512
    ensures (v >> 30) & 0x1FF == (v / 0x4000_0000) % 512
    ensures (v >> 21) & 0x1FF == (v / 0x20_0000) % 512
    ensures (v >> 12) & 0x1FF == (v / 0x1000) % 512
    ensures (v & 0x000F_FFFF_FFFF_F000) >> 12 == (v / 4096) % 0x100_0000_0000
  {
  }

  // ---------------------------------------------------------------- walking the tables

  /** The table reached from `f` along the indices `path`, if every entry is present. */
  ghost function Walk(mem: seq<Table>, f: nat, path: seq<nat>): Option<nat>
    decreases |path|
  {
    if path == [] then Some(f)
    else if f >= |mem| || path[0] >= |mem[f]| || !Present(mem[f][path[0]]) then None
    else Walk(mem, FrameOf(mem[f][path[0]]), path[1..])
  }

  /** What the tables say about a virtual page: its present entry, if any. */
  ghost function Translate(mem: seq<Table>, root: nat, page: nat): Option<nat> {
    match Walk(mem, root, Digits(page / 512, 3))
    case None => None
    case Some(f) =>
      if f < |mem| && page % 512 < |mem[f]| && Present(mem[f][page % 512]) then Some(mem[f][page % 512]) else None
  }

  /** Table `f` is a used page of 512 entries at most three levels below the root, and
      each present entry of an upper level names the table of the longer path. */
  ghost predicate ChildOk(mem: seq<Table>, path: map<nat, seq<nat>>, f: nat, i: nat)
    requires f in path && f < |mem| && i < |mem[f]|
  {
    Present(mem[f][i]) ==>
      && NamesTable(mem[f][i])
      && FrameOf(mem[f][i]) in path && path[FrameOf(mem[f][i])] == path[f] + [i]
  }

  /** An entry of an upper level: the address of a table, present and writable, nothing else. */
  ghost predicate NamesTable(e: nat) { e == 4096 * FrameOf(e) + 3 }


  ghost predicate NodeOk(mem: seq<Table>, used: seq<bool>, root: nat, path: map<nat, seq<nat>>, f: nat)
    requires f in path
  {
    && f < |mem| == |used| && used[f] && |mem[f]| == 512 && |path[f]| <= 3
    && Walk(mem, root, path[f]) == Some(f)
    && (|path[f]| < 3 ==> forall i :: 0 <= i < 512 ==> ChildOk(mem, path, f, i))
  }

  /** The tables form a tree: `path` gives each table the one way it is reached. */
  ghost predicate Tree(mem: seq<Table>, used: seq<bool>, root: nat, path: map<nat, seq<nat>>) {
    && root in path && path[root] == []
    && forall f :: f in path ==> NodeOk(mem, used, root, path, f)
  }

  /** Tables reached by different paths are different, and every table reached is in the tree. */
  lemma {:induction false} WalkStaysInTree(mem: seq<Table>, used: seq<bool>, root: nat, path: map<nat, seq<nat>>,
                                          f: nat, ix: seq<nat>)
    requires Tree(mem, used, root, path) && f in path && |path[f]| + |ix| <= 3
    ensures Walk(mem, f, ix).Some? ==>
              Walk(mem, f, ix).value in path && path[Walk(mem, f, ix).value] == path[f] + ix
    decreases |ix|
  {
    assert NodeOk(mem, used, root, path, f);
    if ix != [] && ix[0] < 512 && Present(mem[f][ix[0]]) {
      assert ChildOk(mem, path, f, ix[0]);
      WalkStaysInTree(mem, used, root, path, FrameOf(mem[f][ix[0]]), ix[1..]);
      assert path[f] + [ix[0]] + ix[1..] == path[f] + ix;
    } else if ix == [] {
      assert path[f] + ix == path[f];
    }
  }

  // ---------------------------------------------------------------- writing one entry

  function Stored(mem: seq<Table>, f: nat, i: nat, e: nat): seq<Table>
    requires f < |mem| && i < |mem[f]|
  {
    var table: Table := mem[f][i := e];
    mem[f := table]
  }

  /** Filling an absent entry keeps every walk that succeeded. */
  lemma {:induction false} WalkSurvives(mem: seq<Table>, t: nat, i: nat, e: nat, f: nat, ix: seq<nat>)
    requires t < |mem| && i < |mem[t]| && !Present(mem[t][i])
    requires Walk(mem, f, ix).Some?
    ensures Walk(Stored(mem, t, i, e), f, ix) == Walk(mem, f, ix)
    decreases |ix|
  {
    if ix != [] {
      WalkSurvives(mem, t, i, e, FrameOf(mem[f][ix[0]]), ix[1..]);
    }
  }

  /** Writing a last-level entry changes no walk to a last-level table. */
  lemma {:induction false} WalkIgnoresLeaves(mem: seq<Table>, used: seq<bool>, root: nat, path: map<nat, seq<nat>>,
                                             t: nat, i: nat, e: nat, f: nat, ix: seq<nat>)
    requires Tree(mem, used, root, path) && f in path && |path[f]| + |ix| <= 3
    requires t in path && |path[t]| == 3 && t < |mem| && i < |mem[t]|
    ensures Walk(Stored(mem, t, i, e), f, ix) == Walk(mem, f, ix)
    decreases |ix|
  {
    if ix != [] {
      assert NodeOk(mem, used, root, path, f);
      assert f != t;
      if ix[0] < 512 && Present(mem[f][ix[0]]) {
        assert ChildOk(mem, path, f, ix[0]);
        WalkIgnoresLeaves(mem, used, root, path, t, i, e, FrameOf(mem[f][ix[0]]), ix[1..]);
      }
    }
  }

  /** After a leaf write the tables are still a tree, and exactly the page of that
      leaf has a new translation. */
  lemma {:induction false} LeafWritten(mem: seq<Table>, used: seq<bool>, root: nat, path: map<nat, seq<nat>>,
                                       t: nat, page: nat, e: nat)
    requires Tree(mem, used, root, path) && t in path && path[t] == Digits(page / 512, 3) && page < 0x10_0000_0000
    ensures t < |mem| && |mem[t]| == 512
    ensures Tree(Stored(mem, t, page % 512, e), used, root, path)
    ensures forall w :: 0 <= w < 0x10_0000_0000 ==>
              Translate(Stored(mem, t, page % 512, e), root, w) ==
              if w == page then (if Present(e) then Some(e) else None) else Translate(mem, root, w)
  {
    assert NodeOk(mem, used, root, path, t);
    var mem' := Stored(mem, t, page % 512, e);
    forall f | f in path
      ensures NodeOk(mem', used, root, path, f)
    {
      assert NodeOk(mem, used, root, path, f);
      WalkIgnoresLeaves(mem, used, root, path, t, page % 512, e, root, path[f]);
      if |path[f]| < 3 {
        forall i | 0 <= i < 512
          ensures ChildOk(mem', path, f, i)
        {
          assert ChildOk(mem, path, f, i);
        }
      }
    }
    forall w | 0 <= w < 0x10_0000_0000
      ensures Translate(mem', root, w) == if w == page then (if Present(e) then Some(e) else None)
              else Translate(mem, root, w)
    {
      LeafTranslation(mem, used, root, path, t, page, e, w);
    }
  }

  lemma {:induction false} LeafTranslation(mem: seq<Table>, used: seq<bool>, root: nat, path: map<nat, seq<nat>>,
                                           t: nat, page: nat, e: nat, w: nat)
    requires Tree(mem, used, root, path) && t in path && path[t] == Digits(page / 512, 3)
    requires page < 0x10_0000_0000 && w < 0x10_0000_0000
    requires t < |mem| && |mem[t]| == 512
    ensures Translate(Stored(mem, t, page % 512, e), root, w) ==
            if w == page then (if Present(e) then Some(e) else None) else Translate(mem, root, w)
  {
    var ix := Digits(w / 512, 3);
    WalkIgnoresLeaves(mem, used, root, path, t, page % 512, e, root, ix);
    WalkStaysInTree(mem, used, root, path, root, ix);
    assert NodeOk(mem, used, root, path, t);
    var r := Walk(mem, root, ix);
    assert ix == path[t] ==> r == Some(t);
    if r == Some(t) {
      assert ix == path[t];
      SamePage(w, page);
    }
  }

  lemma {:induction false} SamePage(w: nat, page: nat)
    requires w < 0x10_0000_0000 && page < 0x10_0000_0000 && Digits(w / 512, 3) == Digits(page / 512, 3)
    ensures w / 512 == page / 512
  {
    assert Pow512(3) == 0x800_0000;
    DigitsInjective(w / 512, page / 512, 3);
  }

  // ---------------------------------------------------------------- adding a table

  /** Linking the fresh zeroed table `g` into the absent entry `i` of `t`. */
  function Linked(mem: seq<Table>, t: nat, i: nat, e: nat, g: nat, zeros: Table): seq<Table>
    requires t < |mem| && i < |mem[t]| && g < |mem| && g != t
  {
    var cleared: seq<Table> := mem[g := zeros];
    Stored(cleared, t, i, e)
  }

  ghost predicate FreshTable(mem: seq<Table>, path: map<nat, seq<nat>>, t: nat, i: nat, e: nat, g: nat, zeros: Table) {
    && t in path && t < |mem| && |path[t]| < 3 && i < |mem[t]| && !Present(mem[t][i])
    && g < |mem| && g !in path && Present(e) && FrameOf(e) == g && NamesTable(e)
    && |zeros| == 512 && forall k :: 0 <= k < 512 ==> zeros[k] == 0
  }

  /** A walk along tree tables is the same with the new table in place, or it ends in
      the new table where there was nothing before. */
  lemma {:induction false} WalkLinked(mem: seq<Table>, used: seq<bool>, root: nat, path: map<nat, seq<nat>>,
                                      t: nat, i: nat, e: nat, g: nat, zeros: Table, f: nat, ix: seq<nat>)
    requires Tree(mem, used, root, path) && FreshTable(mem, path, t, i, e, g, zeros)
    requires f in path && |path[f]| + |ix| <= 3
    ensures var r, r' := Walk(mem, f, ix), Walk(Linked(mem, t, i, e, g, zeros), f, ix);
            r' == r || (r == None && r' == Some(g))
    decreases |ix|
  {
    if ix != [] {
      assert NodeOk(mem, used, root, path, f);
      if f == t && ix[0] == i {
        if |ix| > 1 {
          assert Walk(Linked(mem, t, i, e, g, zeros), g, ix[1..]) == None;
        }
      } else if ix[0] < 512 && Present(mem[f][ix[0]]) {
        assert ChildOk(mem, path, f, ix[0]);
        WalkLinked(mem, used, root, path, t, i, e, g, zeros, FrameOf(mem[f][ix[0]]), ix[1..]);
      }
    }
  }

  /** Adding a fresh zeroed table keeps the tree and changes no translation. */
  lemma {:induction false} TableLinked(mem: seq<Table>, used: seq<bool>, root: nat, path: map<nat, seq<nat>>,
                                       t: nat, i: nat, e: nat, g: nat, zeros: Table)
    requires Tree(mem, used, root, path) && FreshTable(mem, path, t, i, e, g, zeros)
    requires |used| == |mem|
    ensures Tree(Linked(mem, t, i, e, g, zeros), used[g := true], root, path[g := path[t] + [i]])
    ensures forall w :: 0 <= w ==> Translate(Linked(mem, t, i, e, g, zeros), root, w) == Translate(mem, root, w)
  {
    var mem', path', used' := Linked(mem, t, i, e, g, zeros), path[g := path[t] + [i]], used[g := true];
    assert NodeOk(mem, used, root, path, t);
    forall f | f in path'
      ensures NodeOk(mem', used', root, path', f)
    {
      if f == g {
        WalkToNew(mem, used, root, path, t, i, e, g, zeros);
      } else {
        NodeSurvives(mem, used, root, path, t, i, e, g, zeros, f);
      }
    }
    forall w | 0 <= w
      ensures Translate(mem', root, w) == Translate(mem, root, w)
    {
      var ix := Digits(w / 512, 3);
      WalkLinked(mem, used, root, path, t, i, e, g, zeros, root, ix);
      WalkStaysInTree(mem, used, root, path, root, ix);
      var r := Walk(mem, root, ix);
      if r.Some? {
        assert NodeOk(mem, used, root, path, r.value);
        assert r.value != t && r.value != g;
      }
    }
  }

  lemma {:induction false} WalkToNew(mem: seq<Table>, used: seq<bool>, root: nat, path: map<nat, seq<nat>>,
                                     t: nat, i: nat, e: nat, g: nat, zeros: Table)
    requires Tree(mem, used, root, path) && FreshTable(mem, path, t, i, e, g, zeros)
    ensures Walk(Linked(mem, t, i, e, g, zeros), root, path[t] + [i]) == Some(g)
  {
    var mem' := Linked(mem, t, i, e, g, zeros);
    assert NodeOk(mem, used, root, path, t);
    WalkLinked(mem, used, root, path, t, i, e, g, zeros, root, path[t]);
    WalkAppend(mem', root, path[t], i);
  }

  lemma {:induction false} WalkAppend(mem: seq<Table>, f: nat, ix: seq<nat>, i: nat)
    requires Walk(mem, f, ix).Some?
    ensures Walk(mem, f, ix + [i]) == Walk(mem, Walk(mem, f, ix).value, [i])
    decreases |ix|
  {
    if ix == [] {
      assert ix + [i] == [i];
    } else {
      assert (ix + [i])[1..] == ix[1..] + [i];
      WalkAppend(mem, FrameOf(mem[f][ix[0]]), ix[1..], i);
    }
  }

  lemma {:induction false} NodeSurvives(mem: seq<Table>, used: seq<bool>, root: nat, path: map<nat, seq<nat>>,
                                        t: nat, i: nat, e: nat, g: nat, zeros: Table, f: nat)
    requires Tree(mem, used, root, path) && FreshTable(mem, path, t, i, e, g, zeros)
    requires |used| == |mem| && f in path
    ensures NodeOk(Linked(mem, t, i, e, g, zeros), used[g := true], root, path[g := path[t] + [i]], f)
  {
    var mem', path' := Linked(mem, t, i, e, g, zeros), path[g := path[t] + [i]];
    assert NodeOk(mem, used, root, path, f);
    WalkLinked(mem, used, root, path, t, i, e, g, zeros, root, path[f]);
    if |path[f]| < 3 {
      forall k | 0 <= k < 512
        ensures ChildOk(mem', path', f, k)
      {
        assert ChildOk(mem, path, f, k);
      }
    }
  }

  // ---------------------------------------------------------------- the address space

  ghost predicate FlatAt(mem: seq<Table>, root: nat, flat: map<nat, nat>, w: nat) {
    Translate(mem, root, w) == if w in flat then Some(flat[w]) else None
  }

  /** The tables behave as the flat map from virtual pages to entries. */
  ghost predicate Refines(mem: seq<Table>, root: nat, flat: map<nat, nat>) {
    && (forall w :: w in flat ==> w < 0x10_0000_0000 && Present(flat[w]))
    && forall w :: 0 <= w < 0x10_0000_0000 ==> FlatAt(mem, root, flat, w)
  }

  lemma {:induction false} RefinesSame(mem: seq<Table>, mem': seq<Table>, root: nat, flat: map<nat, nat>)
    requires Refines(mem, root, flat)
    requires forall w :: 0 <= w ==> Translate(mem', root, w) == Translate(mem, root, w)
    ensures Refines(mem', root, flat)
  {
    forall w | 0 <= w < 0x10_0000_0000
      ensures FlatAt(mem', root, flat, w)
    {
      assert FlatAt(mem, root, flat, w);
    }
  }

  /** `flat` with page `page` mapped to entry `e`, or unmapped when `e` is not present. */
  function WithEntry(flat: map<nat, nat>, page: nat, e: nat): map<nat, nat> {
    if Present(e) then flat[page := e] else flat - {page}
  }

  lemma {:induction false} RefinesLeaf(mem: seq<Table>, mem': seq<Table>, root: nat, flat: map<nat, nat>, page: nat,
                                       e: nat)
    requires Refines(mem, root, flat) && page < 0x10_0000_0000
    requires forall w :: 0 <= w < 0x10_0000_0000 ==>
               Translate(mem', root, w) == if w == page then (if Present(e) then Some(e) else None)
                   else Translate(mem, root, w)
    ensures Refines(mem', root, WithEntry(flat, page, e))
  {
    forall w | 0 <= w < 0x10_0000_0000
      ensures FlatAt(mem', root, WithEntry(flat, page, e), w)
    {
      assert FlatAt(mem, root, flat, w);
    }
  }

  lemma {:induction false} EmptyTree(mem: seq<Table>, used: seq<bool>, root: nat)
    requires root < |mem| == |used| && used[root] && |mem[root]| == 512
    requires forall k :: 0 <= k < 512 ==> mem[root][k] == 0
    ensures Tree(mem, used, root, map[root := []]) && Refines(mem, root, map[])
  {
    var path: map<nat, seq<nat>> := map[root := []];
    forall i | 0 <= i < 512
      ensures ChildOk(mem, path, root, i)
    {
    }
    assert NodeOk(mem, used, root, path, root);
    forall w | 0 <= w < 0x10_0000_0000
      ensures FlatAt(mem, root, map[], w)
    {
      assert Digits(w / 512, 3) != [];
    }
  }

  lemma {:induction false} NodeInTree(mem: seq<Table>, used: seq<bool>, root: nat, path: map<nat, seq<nat>>, f: nat)
    requires Tree(mem, used, root, path) && f in path
    ensures NodeOk(mem, used, root, path, f)
  {
  }

  /** A page the allocator held free is no table of the tree. */
  lemma {:induction false} FreshPage(mem: seq<Table>, used: seq<bool>, root: nat, path: map<nat, seq<nat>>, p: nat)
    requires Tree(mem, used, root, path) && p < |used| && !used[p]
    ensures p !in path
  {
    assert p in path ==> NodeOk(mem, used, root, path, p);
  }

  // ---------------------------------------------------------------- access along a walk

  /** Every entry on the way from table `f` along `ix` is present and lets writes through. */
  ghost predicate WritableAlong(mem: seq<Table>, f: nat, ix: seq<nat>)
    decreases |ix|
  {
    ix == [] ||
    (&& f < |mem| && ix[0] < |mem[f]| && Present(mem[f][ix[0]]) && Writable(mem[f][ix[0]])
     && WritableAlong(mem, FrameOf(mem[f][ix[0]]), ix[1..]))
  }

  lemma {:induction false} WalkIsWritable(mem: seq<Table>, used: seq<bool>, root: nat, path: map<nat, seq<nat>>,
                                          f: nat, ix: seq<nat>)
    requires Tree(mem, used, root, path) && f in path && |path[f]| + |ix| <= 3 && Walk(mem, f, ix).Some?
    ensures WritableAlong(mem, f, ix)
    decreases |ix|
  {
    if ix != [] {
      assert NodeOk(mem, used, root, path, f);
      assert ChildOk(mem, path, f, ix[0]);
      WalkIsWritable(mem, used, root, path, FrameOf(mem[f][ix[0]]), ix[1..]);
    }
  }

  lemma {:induction false} WritableAppend(mem: seq<Table>, f: nat, ix: seq<nat>, i: nat)
    requires Walk(mem, f, ix).Some? && WritableAlong(mem, f, ix)
    ensures WritableAlong(mem, f, ix + [i]) <==> WritableAlong(mem, Walk(mem, f, ix).value, [i])
    decreases |ix|
  {
    if ix == [] {
      assert ix + [i] == [i];
    } else {
      assert (ix + [i])[1..] == ix[1..] + [i];
      WritableAppend(mem, FrameOf(mem[f][ix[0]]), ix[1..], i);
    }
  }

  /** Writes reach a mapped page through all four levels exactly when its own entry lets them. */
  lemma {:induction false} WritableIff(mem: seq<Table>, used: seq<bool>, root: nat, path: map<nat, seq<nat>>,
                                       flat: map<nat, nat>, page: nat)
    requires Tree(mem, used, root, path) && Refines(mem, root, flat) && page in flat
    ensures WritableAlong(mem, root, Digits(page, 4)) <==> Writable(flat[page])
  {
    var ix := Digits(page / 512, 3);
    assert Digits(page, 4) == ix + [page % 512];
    assert FlatAt(mem, root, flat, page);
    WalkIsWritable(mem, used, root, path, root, ix);
    WritableAppend(mem, root, ix, page % 512);
  }

  // ---------------------------------------------------------------- pages taken for tables

  /** Page `p` was free and is used now if it is a new table; otherwise nothing happened to it. */
  ghost predicate TableTaken(used: seq<bool>, path: map<nat, seq<nat>>, used': seq<bool>, path': map<nat, seq<nat>>,
                             p: nat)
    requires p < |used| == |used'|
  {
    if p in path' && p !in path then !used[p] && used'[p] else used'[p] == used[p]
  }

  /** The pages taken from the allocator are exactly the new tables. */
  ghost predicate TablesTaken(used: seq<bool>, path: map<nat, seq<nat>>, used': seq<bool>,
                              path': map<nat, seq<nat>>) {
    && |used'| == |used|
    && (forall g :: g in path ==> g in path')
    && (forall g :: g in path' ==> g in path || g < |used|)
    && forall p :: 0 <= p < |used| ==> TableTaken(used, path, used', path', p)
  }

  lemma {:induction false} NothingTaken(used: seq<bool>, path: map<nat, seq<nat>>)
    ensures TablesTaken(used, path, used, path)
  {
  }

  lemma {:induction false} OneTaken(used: seq<bool>, path: map<nat, seq<nat>>, g: nat, p: seq<nat>)
    requires g < |used| && !used[g] && g !in path
    ensures TablesTaken(used, path, used[g := true], path[g := p])
  {
  }

  lemma {:induction false} TablesTakenTrans(used: seq<bool>, path: map<nat, seq<nat>>, used1: seq<bool>,
                                            path1: map<nat, seq<nat>>, used2: seq<bool>, path2: map<nat, seq<nat>>)
    requires TablesTaken(used, path, used1, path1) && TablesTaken(used1, path1, used2, path2)
    ensures TablesTaken(used, path, used2, path2)
  {
    forall p | 0 <= p < |used|
      ensures TableTaken(used, path, used2, path2, p)
    {
      assert TableTaken(used, path, used1, path1, p) && TableTaken(used1, path1, used2, path2, p);
    }
  }

  // ---------------------------------------------------------------- tables that are missing

  /** The index paths that have a table. */
  ghost function Tables(path: map<nat, seq<nat>>): set<seq<nat>> {
    set f | f in path :: path[f]
  }

  lemma {:induction false} TablesMore(path: map<nat, seq<nat>>, g: nat, p: seq<nat>)
    requires g !in path
    ensures Tables(path[g := p]) == Tables(path) + {p}
  {
    forall q
      ensures q in Tables(path[g := p]) <==> q in Tables(path) + {p}
    {
      if q in Tables(path) {
        var f :| f in path && path[f] == q;
        assert path[g := p][f] == q;
      }
      if q == p {
        assert path[g := p][g] == q;
      }
    }
  }

  /** An entry of an upper level is present exactly when its index path has a table. */
  lemma {:induction false} PresentIff(mem: seq<Table>, used: seq<bool>, root: nat, path: map<nat, seq<nat>>, t: nat,
                                      i: nat)
    requires Tree(mem, used, root, path) && t in path && |path[t]| < 3 && i < 512
    ensures t < |mem| && |mem[t]| == 512 && (Present(mem[t][i]) <==> path[t] + [i] in Tables(path))
  {
    assert NodeOk(mem, used, root, path, t);
    assert ChildOk(mem, path, t, i);
    if path[t] + [i] in Tables(path) {
      var f :| f in path && path[f] == path[t] + [i];
      assert NodeOk(mem, used, root, path, f);
      WalkAppend(mem, root, path[t], i);
    }
  }

  function Lacks(tables: set<seq<nat>>, p: seq<nat>): nat { if p in tables then 0 else 1 }

  /** How many tables are missing on the way along three indices. */
  ghost function Missing(tables: set<seq<nat>>, ix: seq<nat>): nat
    requires |ix| == 3
  {
    Lacks(tables, ix[..1]) + Lacks(tables, ix[..2]) + Lacks(tables, ix)
  }

  /** The tables once that way is complete. */
  ghost function WithPath(tables: set<seq<nat>>, ix: seq<nat>): set<seq<nat>>
    requires |ix| == 3
  {
    tables + {ix[..1], ix[..2], ix}
  }

  /** The indices that lead to the last-level table of an address. */
  function TablePath(virt: nat): (r: seq<nat>)
    ensures |r| == 3
  {
    Digits(PageOf(virt) / 512, 3)
  }

  /** Completing the way table by table. */
  lemma {:induction false} StepsAdd(tables: set<seq<nat>>, ix: seq<nat>)
    requires |ix| == 3
    ensures tables + {ix[..1]} + {ix[..2]} + {ix} == WithPath(tables, ix)
    ensures Lacks(tables + {ix[..1]}, ix[..2]) == Lacks(tables, ix[..2])
    ensures Lacks(tables + {ix[..1]} + {ix[..2]}, ix) == Lacks(tables, ix)
  {
    assert |ix[..1]| == 1 && |ix[..2]| == 2;
  }

  /** A walk that succeeds does so along every prefix. */
  lemma {:induction false} WalkPrefix(mem: seq<Table>, f: nat, ix: seq<nat>, n: nat)
    requires n <= |ix| && Walk(mem, f, ix).Some?
    ensures Walk(mem, f, ix[..n]).Some?
    decreases |ix|
  {
    if n > 0 {
      WalkPrefix(mem, FrameOf(mem[f][ix[0]]), ix[1..], n - 1);
      assert ix[..n][1..] == ix[1..][..n - 1];
    }
  }

  lemma {:induction false} ReachedHasTable(mem: seq<Table>, used: seq<bool>, root: nat, path: map<nat, seq<nat>>,
                                           ix: seq<nat>)
    requires Tree(mem, used, root, path) && |ix| <= 3 && Walk(mem, root, ix).Some?
    ensures ix in Tables(path)
  {
    WalkStaysInTree(mem, used, root, path, root, ix);
    var g := Walk(mem, root, ix).value;
    assert path[g] == ix;
  }

  /** The tables of a mapped page are all there. */
  lemma {:induction false} MappedLacksNone(mem: seq<Table>, used: seq<bool>, root: nat, path: map<nat, seq<nat>>,
                                           flat: map<nat, nat>, virt: nat)
    requires Tree(mem, used, root, path) && Refines(mem, root, flat) && PageOf(virt) in flat
    ensures Missing(Tables(path), TablePath(virt)) == 0
  {
    var ix := TablePath(virt);
    assert FlatAt(mem, root, flat, PageOf(virt));
    WalkPrefix(mem, root, ix, 1);
    WalkPrefix(mem, root, ix, 2);
    ReachedHasTable(mem, used, root, path, ix[..1]);
    ReachedHasTable(mem, used, root, path, ix[..2]);
    ReachedHasTable(mem, used, root, path, ix);
  }

  /** Marking pages used keeps the tree. */
  lemma {:induction false} MoreUsed(mem: seq<Table>, used: seq<bool>, root: nat, path: map<nat, seq<nat>>, p: nat)
    requires Tree(mem, used, root, path) && p < |used|
    ensures Tree(mem, used[p := true], root, path)
  {
    forall f | f in path
      ensures NodeOk(mem, used[p := true], root, path, f)
    {
      assert NodeOk(mem, used, root, path, f);
    }
  }

  // ---------------------------------------------------------------- walks that end

  /** A walk ends at an absent entry. */
  lemma {:induction false} WalkStops(mem: seq<Table>, f: nat, prefix: seq<nat>, t: nat, i: nat, rest: seq<nat>)
    requires Walk(mem, f, prefix) == Some(t)
    requires t < |mem| && i < |mem[t]| && !Present(mem[t][i])
    ensures Walk(mem, f, prefix + [i] + rest) == None
    decreases |prefix|
  {
    var whole := prefix + [i] + rest;
    if prefix != [] {
      assert whole[1..] == prefix[1..] + [i] + rest;
      WalkStops(mem, FrameOf(mem[f][prefix[0]]), prefix[1..], t, i, rest);
    }
  }

  /** So the page has no translation. */
  lemma {:induction false} AbsentPage(mem: seq<Table>, used: seq<bool>, root: nat, path: map<nat, seq<nat>>,
                                      flat: map<nat, nat>,
                                      t: nat, i: nat, rest: seq<nat>, page: nat)
    requires Tree(mem, used, root, path) && Refines(mem, root, flat) && page < 0x10_0000_0000
    requires t in path && t < |mem| && i < |mem[t]| && !Present(mem[t][i])
    requires Digits(page / 512, 3) == path[t] + [i] + rest
    ensures page !in flat
  {
    assert NodeOk(mem, used, root, path, t);
    WalkStops(mem, root, path[t], t, i, rest);
    assert FlatAt(mem, root, flat, page);
  }

  const PTE_WRITABLE: nat := 2

  /** The entry that names table `g`: present and writable. */
  function TableEntry(g: nat): nat { Or(Or(4096 * g, 1), PTE_WRITABLE) }

  lemma {:induction false} TableEntryNames(g: nat)
    requires g < 0x100_0000_0000
    ensures TableEntry(g) == 4096 * g + 3 && Present(TableEntry(g)) && FrameOf(TableEntry(g)) == g
  {
    hide Or, FrameOf;
    OrHalves(Or(4096 * g, 1), PTE_WRITABLE);
    OrHalves(4096 * g, 1);
    OrZero(2048 * g);
    OrHalves(2048 * g, 1);
    OrZero(1024 * g);
    FrameOfIsField(4096 * g + 3);
  }

  const ZERO_TABLE: Table := seq(512, i => 0)

  /** How a mapping request ends: done, refused, or stopped on an assertion because no
      page is left for a table. */
  datatype MapResult = Mapped | Refused | Halted

  class AddressSpace {
    const pm: PhysicalMemory
    /** Physical memory as page tables, one per page. */
    const memory: array<Table>
    const root: nat
    /** The indices that lead to each table. */
    ghost var path: map<nat, seq<nat>>
    /** The mapping the tables stand for. */
    ghost var flat: map<nat, nat>

    ghost predicate Valid()
      reads this, pm, pm.bitmap, memory
    {
      && pm.Valid()
      && memory as object != pm.bitmap as object
      && memory.Length == pm.totalPages <= 0x100_0000_0000
      && Tree(memory[..], pm.used, root, path)
      && Refines(memory[..], root, flat)
    }

    /** A new address space maps nothing. */
    constructor (pm: PhysicalMemory, memory: array<Table>)
      requires pm.Valid() && memory as object != pm.bitmap as object
      requires memory.Length == pm.totalPages <= 0x100_0000_0000 && pm.freePages > 0
      modifies pm, pm.bitmap, memory
      ensures Valid() && this.pm == pm && this.memory == memory && flat == map[]
      ensures Tables(path) == {[]} && pm.freePages == old(pm.freePages) - 1
    {
      var phys := pm.AllocPage();
      this.pm, this.memory, this.root := pm, memory, phys / 4096;
      this.path, this.flat := map[phys / 4096 := []], map[];
      new;
      memory[root] := ZERO_TABLE;
      EmptyTree(memory[..], pm.used, root);
    }

    /** The table behind an entry of an upper level; when it is absent and `create` is
        set, a fresh zeroed one is linked there first. No translation changes. */
    method GetNextTable(table: nat, index: nat, create: bool) returns (found: bool, halted: bool, next: nat)
      requires Valid() && table in path && |path[table]| < 3 && index < 512
      modifies `path, pm, pm.bitmap, memory
      ensures Valid()
      ensures table < memory.Length && table in path && path[table] == old(path[table])
      ensures found ==> next in path && path[next] == path[table] + [index]
      ensures TablesTaken(old(pm.used), old(path), pm.used, path)
      ensures !found ==> unchanged(this) && unchanged(memory) && unchanged(pm) && unchanged(pm.bitmap)
      ensures !create ==> unchanged(this) && unchanged(memory) && unchanged(pm) && unchanged(pm.bitmap) && !halted
      ensures !create && !found ==> |memory[table]| == 512 && !Present(memory[table][index])
      ensures create ==> found == !halted && (halted ==> pm.freePages == 0)
      ensures create ==> var p := old(path)[table] + [index];
                && (found <==> p in Tables(old(path)) || old(pm.freePages) > 0)
                && (p in Tables(old(path)) ==>
                    unchanged(this) && unchanged(memory) && unchanged(pm) && unchanged(pm.bitmap))
                && (found ==> Tables(path) == Tables(old(path)) + {p}
                              && pm.freePages == old(pm.freePages) - Lacks(Tables(old(path)), p))
    {
      hide Tables, Refines, Tree, TablesTaken;
      NothingTaken(pm.used, path);
      PresentIff(memory[..], pm.used, root, path, table, index);
      assert NodeOk(memory[..], pm.used, root, path, table) by {
        NodeInTree(memory[..], pm.used, root, path, table);
      }
      var entry := memory[table][index];
      next := 0;
      halted := false;
      if Present(entry) {
        assert ChildOk(memory[..], path, table, index);
        assert Tables(path) == Tables(path) + {path[table] + [index]};
        found := true;
        next := FrameOf(entry);
        return;
      }
      if !create {
        found := false;
        return;
      }
      halted, next := LinkNewTable(table, index);
      found := !halted;
    }

    method LinkNewTable(table: nat, index: nat) returns (halted: bool, next: nat)
      requires Valid() && table in path && |path[table]| < 3 && index < 512
      requires table < memory.Length && |memory[table]| == 512 && !Present(memory[table][index])
      modifies `path, pm, pm.bitmap, memory
      ensures Valid()
      ensures halted ==>
                unchanged(this) && unchanged(memory) && unchanged(pm) && unchanged(pm.bitmap) && pm.freePages == 0
      ensures !halted ==> TablesTaken(old(pm.used), old(path), pm.used, path)
      ensures !halted ==> path == old(path)[next := old(path)[table] + [index]] && next !in old(path)
      ensures !halted ==> Tables(path) == Tables(old(path)) + {old(path)[table] + [index]}
      ensures !halted ==> old(pm.freePages) > 0 && pm.freePages == old(pm.freePages) - 1
    {
      hide TablesTaken, Tables;
      ghost var mem, used := memory[..], pm.used;
      var phys := pm.AllocPage();
      if phys == 0 {
        return true, 0;
      }
      halted, next := false, phys / 4096;
      FreshPage(mem, used, root, path, next);
      TableEntryNames(next);
      TablesMore(path, next, path[table] + [index]);
      OneTaken(used, path, next, path[table] + [index]);
      var e := TableEntry(next);
      memory[next] := ZERO_TABLE;
      StoreEntry(table, index, e);
      assert memory[..] == Linked(mem, table, index, e, next, ZERO_TABLE);
      TableLinked(mem, used, root, path, table, index, e, next, ZERO_TABLE);
      RefinesSame(mem, memory[..], root, flat);
      path := path[next := path[table] + [index]];
    }

    /** The last-level table of an address, created on the way when asked for. */
    method GetPte(virt: nat, create: bool) returns (found: bool, halted: bool, table: nat)
      requires Valid()
      modifies `path, pm, pm.bitmap, memory
      ensures Valid()
      ensures found ==> table in path && path[table] == Digits(PageOf(virt) / 512, 3)
      ensures TablesTaken(old(pm.used), old(path), pm.used, path)
      ensures !create ==> unchanged(this) && unchanged(memory) && unchanged(pm) && unchanged(pm.bitmap) && !halted
      ensures !create && !found ==> PageOf(virt) !in flat
      ensures create ==> found == !halted && (halted ==> pm.freePages == 0)
      ensures create ==> var missing := Missing(Tables(old(path)), TablePath(virt));
                && (found <==> missing <= old(pm.freePages))
                && (missing == 0 ==> unchanged(this) && unchanged(memory) && unchanged(pm) && unchanged(pm.bitmap))
                && (found ==> Tables(path) == WithPath(Tables(old(path)), TablePath(virt))
                              && pm.freePages == old(pm.freePages) - missing)
    {
      hide Refines, Walk, Digits, FlatAt, Present, Tables, WithPath, PageOf, TablesTaken;
      IndicesAreDigits(virt);
      ghost var used0, path0 := pm.used, path;
      ghost var page, ix, tables := PageOf(virt), TablePath(virt), Tables(path);
      StepsAdd(tables, ix);
      assert ix[..1] == [] + [Pml4Index(virt)] && ix[..2] == ix[..1] + [PdptIndex(virt)]
          && ix == ix[..2] + [PdIndex(virt)];
      NodeInTree(memory[..], pm.used, root, path, root);
      var pdpt, pd;
      table := 0;
      found, halted, pdpt := GetNextTable(root, Pml4Index(virt), create);
      if !found {
        if !create {
          AbsentPage(memory[..], pm.used, root, path, flat, root, Pml4Index(virt), [PdptIndex(virt), PdIndex(virt)],
                     page);
        }
        return;
      }
      ghost var used1, path1 := pm.used, path;
      found, halted, pd := GetNextTable(pdpt, PdptIndex(virt), create);
      TablesTakenTrans(used0, path0, used1, path1, pm.used, path);
      if !found {
        if !create {
          AbsentPage(memory[..], pm.used, root, path, flat, pdpt, PdptIndex(virt), [PdIndex(virt)], page);
        }
        return;
      }
      ghost var upper, used2, path2 := pd, pm.used, path;
      found, halted, table := GetNextTable(pd, PdIndex(virt), create);
      TablesTakenTrans(used0, path0, used2, path2, pm.used, path);
      if !found && !create {
        AbsentPage(memory[..], pm.used, root, path, flat, upper, PdIndex(virt), [], page);
      }
    }

    /** Writes one last-level entry: exactly that page's translation changes. */
    method WriteLeaf(table: nat, virt: nat, e: nat)
      requires Valid() && table in path && path[table] == Digits(PageOf(virt) / 512, 3)
      modifies `flat, memory
      ensures Valid() && flat == WithEntry(old(flat), PageOf(virt), e)
    {
      ghost var mem, page := memory[..], PageOf(virt);
      IndicesAreDigits(virt);
      LeafWritten(mem, pm.used, root, path, table, page, e);
      StoreEntry(table, PtIndex(virt), e);
      RefinesLeaf(mem, memory[..], root, flat, page, e);
      flat := WithEntry(flat, page, e);
    }

    method StoreEntry(table: nat, index: nat, e: nat)
      requires table < memory.Length && index < |memory[table]|
      modifies memory
      ensures memory[..] == Stored(old(memory[..]), table, index, e)
    {
      var updated: Table := memory[table][index := e];
      memory[table] := updated;
    }

    /** Reads one last-level entry. */
    method ReadLeaf(table: nat, virt: nat) returns (e: nat)
      requires Valid() && table in path && path[table] == Digits(PageOf(virt) / 512, 3)
      ensures Present(e) <==> PageOf(virt) in flat
      ensures Present(e) ==> e == flat[PageOf(virt)]
    {
      IndicesAreDigits(virt);
      assert NodeOk(memory[..], pm.used, root, path, table);
      assert FlatAt(memory[..], root, flat, PageOf(virt));
      e := memory[table][PtIndex(virt)];
    }

    /** Maps one page. Success adds exactly one translation; a misaligned address and a
        mapped page are refused, with nothing changed. The kernel halts exactly when a page
        to be mapped lacks more tables than there are free pages. */
    method MapPage(virt: nat, phys: nat, flags: nat) returns (r: MapResult)
      requires Valid()
      modifies `path, `flat, pm, pm.bitmap, memory
      ensures Valid()
      ensures r == Refused <==> virt % 4096 != 0 || phys % 4096 != 0 || PageOf(virt) in old(flat)
      ensures r == Refused ==> unchanged(this) && unchanged(memory) && unchanged(pm) && unchanged(pm.bitmap)
      ensures r == Halted <==>
                virt % 4096 == 0 && phys % 4096 == 0 && Missing(Tables(old(path)), TablePath(virt)) > old(pm.freePages)
      ensures r == Mapped ==> flat == old(flat)[PageOf(virt) := Pte(phys, flags)]
      ensures r == Mapped ==> EntryFields(flat[PageOf(virt)], phys, flags)
      ensures r == Mapped ==> (WritableAlong(memory[..], root, Digits(PageOf(virt), 4)) <==> Writable(flags))
      ensures TablesTaken(old(pm.used), old(path), pm.used, path)
      ensures r == Mapped ==>
                && Tables(path) == WithPath(Tables(old(path)), TablePath(virt))
                && pm.freePages == old(pm.freePages) - Missing(Tables(old(path)), TablePath(virt))
      ensures r != Mapped ==> flat == old(flat)
      ensures r == Halted ==> pm.freePages == 0
    {
      hide Refines, Tree, Tables, Missing, WithPath, PageOf, TablePath, Pte, Digits, Writable, TablesTaken;
      hide EntryFields, WritableAlong;
      NothingTaken(pm.used, path);
      if PageOf(virt) in flat {
        MappedLacksNone(memory[..], pm.used, root, path, flat, virt);
      }
      if virt % 4096 != 0 || phys % 4096 != 0 {
        return Refused;
      }
      var found, halted, table := GetPte(virt, true);
      if halted {
        return Halted;
      }
      var pte := ReadLeaf(table, virt);
      if Present(pte) {
        return Refused;
      }
      PtePresent(phys, flags);
      PteFields(phys, flags);
      WriteLeaf(table, virt, Pte(phys, flags));
      WritableIff(memory[..], pm.used, root, path, flat, PageOf(virt));
      r := Mapped;
    }

    /** Unmaps one page: success removes exactly one translation, failure none. */
    method UnmapPage(virt: nat) returns (ok: bool)
      requires Valid()
      modifies `path, `flat, pm, pm.bitmap, memory
      ensures Valid()
      ensures ok <==> virt % 4096 == 0 && PageOf(virt) in old(flat)
      ensures flat == if ok then old(flat) - {PageOf(virt)} else old(flat)
      ensures unchanged(pm) && unchanged(pm.bitmap) && path == old(path)
    {
      if virt % 4096 != 0 {
        return false;
      }
      var found, halted, table := GetPte(virt, false);
      if !found {
        return false;
      }
      var pte := ReadLeaf(table, virt);
      if !Present(pte) {
        return false;
      }
      WriteLeaf(table, virt, 0);
      ok := true;
    }

    /** The mapped page's address plus the offset in the page; 0 when nothing is mapped. */
    method VirtToPhysical(virt: nat) returns (phys: nat)
      requires Valid()
      modifies `path, pm, pm.bitmap, memory
      ensures Valid() && unchanged(this) && unchanged(memory) && unchanged(pm) && unchanged(pm.bitmap)
      ensures phys == if PageOf(virt) in flat then 4096 * FrameOf(flat[PageOf(virt)]) + virt % 4096 else 0
    {
      var found, halted, table := GetPte(virt, false);
      if !found {
        return 0;
      }
      var pte := ReadLeaf(table, virt);
      if !Present(pte) {
        return 0;
      }
      phys := 4096 * FrameOf(pte) + virt % 4096;
    }

    /** The i-th page of a range. */
    method MapNth(virt: nat, phys: nat, flags: nat, i: nat) returns (r: MapResult)
      requires Valid()
      modifies `path, `flat, pm, pm.bitmap, memory
      ensures Valid()
      ensures r == Refused <==> virt % 4096 != 0 || phys % 4096 != 0 || PageOf(virt + 4096 * i) in old(flat)
      ensures r == Halted <==>
                virt % 4096 == 0 && phys % 4096 == 0 && MissingAt(Tables(old(path)), virt, i) > old(pm.freePages)
      ensures r == Halted ==> PageOf(virt + 4096 * i) !in old(flat)
      ensures r == Mapped ==> flat == old(flat)[PageOf(virt + 4096 * i) := Pte(phys + 4096 * i, flags)]
      ensures r == Mapped ==> RangeEntry(flat, virt, phys, flags, i)
      ensures r == Mapped ==>
                && Tables(path) == WithPath(Tables(old(path)), TablePath(virt + 4096 * i))
                && pm.freePages == old(pm.freePages) - MissingAt(Tables(old(path)), virt, i)
      ensures r != Mapped ==> flat == old(flat)
    {
      hide PageOf, TablePath, Tables, Missing, WithPath, Pte, Tree, Refines;
      WholePagesOn(virt, i);
      WholePagesOn(phys, i);
      r := MapPage(virt + 4096 * i, phys + 4096 * i, flags);
    }

    /** Maps consecutive pages in order and stops at the first that cannot be mapped,
        leaving exactly the pages before it mapped: it is refused there for a misaligned
        range or a mapped page, and halts when the tables up to it are more than the free
        pages. */
    method MapRange(virt: nat, phys: nat, size: nat, flags: nat) returns (r: MapResult, ghost done: nat)
      requires Valid()
      modifies `path, `flat, pm, pm.bitmap, memory
      ensures Valid()
      ensures done <= PageCount(size) && (r == Mapped <==> done == PageCount(size))
      ensures flat == FlatRange(old(flat), virt, phys, flags, done)
      ensures r == Refused ==> virt % 4096 != 0 || phys % 4096 != 0 || PageOf(virt + 4096 * done) in flat
      ensures forall k :: 0 <= k < done ==> PageOf(virt + 4096 * k) !in old(flat)
      ensures forall k :: 0 <= k < done ==> RangeEntry(flat, virt, phys, flags, k)
      ensures r == Halted ==> PageOf(virt + 4096 * done) !in old(flat)
      ensures RangeCost(Tables(old(path)), virt, done) <= old(pm.freePages)
      ensures r == Halted ==> RangeCost(Tables(old(path)), virt, done + 1) > old(pm.freePages)
      ensures r == Halted || done > 0 ==> virt % 4096 == 0 && phys % 4096 == 0
    {
      hide PageOf, Pte, Tables, MissingAt, WithPath, TablePath, Tree, Refines;
      ghost var tables, free := Tables(path), pm.freePages;
      var pages := (size + 4095) / 4096;
      done := 0;
      for i := 0 to pages
        invariant Valid() && done == i
        invariant flat == FlatRange(old(flat), virt, phys, flags, i)
        invariant forall k :: 0 <= k < i ==> PageOf(virt + 4096 * k) !in old(flat)
        invariant forall k :: 0 <= k < i ==> RangeEntry(flat, virt, phys, flags, k)
        invariant Tables(path) == TablesAfter(tables, virt, i) && pm.freePages + RangeCost(tables, virt, i) == free
        invariant i > 0 ==> virt % 4096 == 0 && phys % 4096 == 0
      {
        FlatRangeKeeps(old(flat), virt, phys, flags, i, PageOf(virt + 4096 * i));
        ghost var before := flat;
        r := MapNth(virt, phys, flags, i);
        if r != Mapped {
          return;
        }
        forall k | 0 <= k < i
          ensures RangeEntry(flat, virt, phys, flags, k)
        {
          assert RangeEntry(before, virt, phys, flags, k);
        }
        done := i + 1;
      }
      r := Mapped;
    }
  }

  /** The i-th page of a range has the entry of a mapping to the i-th physical page. */
  ghost predicate RangeEntry(flat: map<nat, nat>, virt: nat, phys: nat, flags: nat, i: nat) {
    PageOf(virt + 4096 * i) in flat && EntryFields(flat[PageOf(virt + 4096 * i)], phys + 4096 * i, flags)
  }

  /** Tables missing for the i-th page of a range. */
  ghost function MissingAt(tables: set<seq<nat>>, virt: nat, i: nat): nat {
    Missing(tables, TablePath(virt + 4096 * i))
  }

  /** The tables once `n` consecutive pages are mapped. */
  ghost function TablesAfter(tables: set<seq<nat>>, virt: nat, n: nat): set<seq<nat>> {
    if n == 0 then tables else WithPath(TablesAfter(tables, virt, n - 1), TablePath(virt + 4096 * (n - 1)))
  }

  /** Pages that the tables for `n` consecutive pages take. */
  ghost function RangeCost(tables: set<seq<nat>>, virt: nat, n: nat): nat {
    if n == 0 then 0
    else RangeCost(tables, virt, n - 1) + MissingAt(TablesAfter(tables, virt, n - 1), virt, n - 1)
  }

  lemma {:induction false} RangeCostMono(tables: set<seq<nat>>, virt: nat, m: nat, n: nat)
    requires m <= n
    ensures RangeCost(tables, virt, m) <= RangeCost(tables, virt, n)
    decreases n - m
  {
    if m < n {
      RangeCostMono(tables, virt, m, n - 1);
    }
  }

  /** Whole pages further on an address is aligned as before. */
  lemma {:induction false} WholePagesOn(x: nat, i: nat)
    ensures (x + 4096 * i) % 4096 == x % 4096
  {
  }

  function PageCount(size: nat): nat { (size + 4095) / 4096 }

  /** `flat` with `n` consecutive pages mapped. */
  function FlatRange(flat: map<nat, nat>, virt: nat, phys: nat, flags: nat, n: nat): map<nat, nat> {
    if n == 0 then flat
    else FlatRange(flat, virt, phys, flags, n - 1)[PageOf(virt + 4096 * (n - 1)) := Pte(phys + 4096 * (n - 1), flags)]
  }

  lemma {:induction false} FlatRangeKeeps(flat: map<nat, nat>, virt: nat, phys: nat, flags: nat, n: nat, page: nat)
    ensures page in flat ==> page in FlatRange(flat, virt, phys, flags, n)
  {
    if n > 0 {
      FlatRangeKeeps(flat, virt, phys, flags, n - 1, page);
    }
  }
}
