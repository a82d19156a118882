/** Address spaces (vmm.c): creating, destroying, mapping and unmapping over the page allocator. */
module Vmm {
  import opened Options
  import opened Words
  import opened PageTables
  import opened AddressSpaces
  import opened Rights
  import Pmm

  // ---------- entries written by the memory manager ----------

  /** `(phys & ~0xFFF) | flags | PRESENT`. */
  function LeafEntry(phys: Word, flags: Word): Word {
    OrWord(AlignDown(phys, PAGE_SIZE), flags);
    OrWord(Or(AlignDown(phys, PAGE_SIZE), flags), 1);
    Or(Or(AlignDown(phys, PAGE_SIZE), flags), 1)
  }

  /** `table | PRESENT | WRITABLE | (flags & USER)`. */
  function TableEntry(f: nat, flags: Word): Word
    requires f < Pmm.MAX_PAGES
  {
    f * PAGE_SIZE + 3 + (if User(flags) then 4 else 0)
  }

  lemma TableEntryBits(f: nat, flags: Word)
    requires f < Pmm.MAX_PAGES
    ensures Present(TableEntry(f, flags)) && !Huge(TableEntry(f, flags)) && Frame(TableEntry(f, flags)) == f
    ensures NewPointer(TableEntry(f, flags), User(flags))
  {
    hide User;
    var w := TableEntry(f, flags);
    var r := w - f * PAGE_SIZE;
    ModUnique(w, PAGE_SIZE, f, r);
    ModUnique(w, 128, 32 * f, r);
    ModUnique(w, 2, 2048 * f + (r - 1) / 2, 1);
  }

  /** The entry is present and its address field is the `Or` of both page numbers. */
  lemma LeafEntryBits(phys: Word, flags: Word)
    ensures Present(LeafEntry(phys, flags))
    ensures Frame(LeafEntry(phys, flags)) == Or(Frame(phys), Frame(flags))
  {
    var base := AlignDown(phys, PAGE_SIZE);
    OrWord(base, flags);
    OrWord(Or(base, flags), 1);
    OrHalves(Or(base, flags), 1);
    assert Frame(base) == Frame(phys);
    assert Frame(1) == 0;
    OrZero(Or(Frame(phys), Frame(flags)));
  }

  /** Bits 1 to 11 of the entry are those of the flags, and bit 0 is set. */
  lemma LeafFlags(phys: Word, flags: Word)
    ensures LeafEntry(phys, flags) % 4096 == flags % 4096 + (1 - flags % 2)
  {
    hide Or, AlignDown;
    var base := AlignDown(phys, PAGE_SIZE);
    Aligned(phys);
    OrLowTwelve(base, flags);
    OrOne(Or(base, flags));
    LowestBit(Or(base, flags), flags);
  }

  lemma Aligned(v: nat)
    ensures AlignDown(v, PAGE_SIZE) % 4096 == 0
  {
    ModUnique(AlignDown(v, PAGE_SIZE), 4096, v / 4096, 0);
  }

  lemma OrLowTwelve(base: nat, b: nat)
    requires base % 4096 == 0
    ensures Or(base, b) % 4096 == b % 4096
  {
    hide Or, Pow2;
    assert Pow2(12) == 4096 by {
      Pow2Byte(4);
      Pow2Nibble();
    }
    OrCommutes(base, b);
    OrLowBits(b, base, 12);
  }

  lemma OrOne(x: nat)
    ensures Or(x, 1) % 4096 == x % 4096 + (1 - x % 2)
  {
    hide Or;
    OrHalves(x, 1);
    OrZero(x / 2);
    var q, r := x / 4096, x % 4096;
    assert x == q * 4096 + r;
    ModUnique(x, 2, q * 2048 + r / 2, r % 2);
    ModUnique(Or(x, 1), 4096, q, r - r % 2 + 1);
  }

  lemma LowestBit(x: nat, y: nat)
    requires x % 4096 == y % 4096
    ensures x % 2 == y % 2
  {
    LowestOf(x);
    LowestOf(y);
  }

  lemma LowestOf(x: nat)
    ensures x % 2 == x % 4096 % 2
  {
    ModUnique(x, 2, x / 4096 * 2048 + x % 4096 / 2, x % 4096 % 2);
  }

  lemma OrZero(a: nat)
    ensures Or(a, 0) == a
  {
  }

  /** The address that `vmm_get_phys` reads back from the entry is the page address
      exactly when no flag at or above bit 12 adds a bit to it. */
  lemma LeafAddressExact(phys: Word, flags: Word)
    ensures Frame(LeafEntry(phys, flags)) == Frame(phys) <==> BitsIn(Frame(flags), Frame(phys))
    ensures flags < PAGE_SIZE ==> Frame(LeafEntry(phys, flags)) == Frame(phys)
  {
    LeafEntryBits(phys, flags);
    OrAbsorbs(Frame(phys), Frame(flags));
  }

  /** The processor takes bits 51:12 only, so flags outside them, NX among them, do no harm. */
  lemma LeafHwAddress(phys: Word, flags: Word)
    requires HwFrame(flags) == 0
    ensures HwFrame(LeafEntry(phys, flags)) == HwFrame(phys)
  {
    LeafEntryBits(phys, flags);
    assert Pow2(40) == 0x100_0000_0000 by {
      HalfWidth();
      Pow2Byte(32);
    }
    OrLowBits(Frame(phys), Frame(flags), 40);
  }

  const NX: Word := 0x8000_0000_0000_0000

  /** With NX set the mapping is right for the processor and `vmm_get_phys` still returns a wrong address. */
  lemma NxLeaks(phys: Word)
    requires phys < NX
    ensures HwFrame(LeafEntry(phys, NX)) == HwFrame(phys)
    ensures Frame(LeafEntry(phys, NX)) != Frame(phys)
  {
    LeafHwAddress(phys, NX);
    LeafAddressExact(phys, NX);
    if BitsIn(Frame(NX), Frame(phys)) {
      BitsInBelow(Frame(NX), Frame(phys));
    }
  }

  // ---------- the software walk and the processor's walk ----------

  /** No large page among the entries that a walk to `v` reads. */
  ghost predicate NoLargePageOn(mem: Memory, tab: Tables, v: nat)
    requires Bounded(tab, |mem|)
  {
    forall d: nat | 1 <= d < 3 && PathTo(v, d) in tab :: !LargePage(mem[tab[PathTo(v, d)]][Index(d, v)])
  }

  /** Off large pages `vmm_get_phys` finds the entry the processor finds; the addresses agree in bits 51:0. */
  lemma {:induction false} SoftwareWalkAgrees(mem: Memory, root: nat, tab: Tables, r: Region, v: nat, d: nat)
    requires Tree(mem, root, tab, r) && InRegion(r, v) && d <= 3 && PathTo(v, d) in tab && NoLargePageOn(mem, tab, v)
    ensures var soft, hw := SoftFrom(mem, tab[PathTo(v, d)], d, v), HwFrom(mem, tab[PathTo(v, d)], d, v);
            (soft.None? <==> hw.None?) && (soft.Some? ==> hw.value == soft.value % 0x10_0000_0000_0000)
    decreases 3 - d
  {
    hide Index, Present, Huge, Shape, Injective, Linking;
    HwStep(mem, root, tab, r, v, d);
    var w := mem[tab[PathTo(v, d)]][Index(d, v)];
    if d < 3 {
      if PathTo(v, d + 1) in tab {
        SoftwareWalkAgrees(mem, root, tab, r, v, d + 1);
      } else {
        assert !Present(w);
      }
    } else if Present(w) {
      AddressField(Frame(w), v % PAGE_SIZE);
    }
  }

  lemma AddressField(frame: nat, off: nat)
    requires off < PAGE_SIZE
    ensures (frame * PAGE_SIZE + off) % 0x10_0000_0000_0000 == frame % 0x100_0000_0000 * PAGE_SIZE + off
  {
    var q := frame / 0x100_0000_0000;
    ModUnique(frame * PAGE_SIZE + off, 0x10_0000_0000_0000, q, frame % 0x100_0000_0000 * PAGE_SIZE + off);
  }

  /** A request inside one space. */
  datatype PageOp = MapPage(virt: Word, phys: Word, flags: Word) | UnmapPage(virt: Word)

  /** A request to the memory manager; `handle` counts the spaces that the caller holds, and a request in the kernel is
      one with a null space. */
  datatype SpaceOp = Create | Destroy(handle: nat) | InSpace(handle: nat, op: PageOp) | InKernel(op: PageOp)

  /** No request in the kernel is for an address behind a large page. */
  ghost predicate OffLargePages(mem: Memory, kernelTables: Tables, ops: seq<SpaceOp>)
    requires Bounded(kernelTables, |mem|)
  {
    forall op | op in ops && op.InKernel? :: NoLargePageOn(mem, kernelTables, op.op.virt)
  }

  /** A request in the kernel for the page of `v`. */
  ghost predicate Touches(op: SpaceOp, v: nat) { op.InKernel? && SamePage(op.op.virt, v) }

  /** What the kernel sees at the addresses that no request in the kernel is for. */
  ghost predicate KernelSees(mem: Memory, mem': Memory, kernelRoot: nat, ops: seq<SpaceOp>) {
    forall v: nat | (forall op | op in ops :: !Touches(op, v)) ::
      Translate(mem', kernelRoot, v) == Translate(mem, kernelRoot, v)
  }

  /** The kernel's tables hold what they held. */
  ghost predicate KernelKept(mem: Memory, mem': Memory, kernelTables: Tables) {
    && |mem'| == |mem| && Bounded(kernelTables, |mem|)
    && forall p | p in kernelTables :: mem'[kernelTables[p]] == mem[kernelTables[p]]
  }

  /** Addresses off large pages stay so. */
  ghost predicate StaysClear(mem: Memory, mem': Memory, tab: Tables, tab': Tables) {
    && Bounded(tab, |mem|) && Bounded(tab', |mem'|)
    && forall v: nat | NoLargePageOn(mem, tab, v) :: NoLargePageOn(mem', tab', v)
  }

  ghost predicate HeldRoot(handles: seq<nat>, s: nat) { exists i :: 0 <= i < |handles| && handles[i] / PAGE_SIZE == s }

  /** The spaces that the caller does not hold keep their tables and their user areas, and it does not come to hold one
      of them. */
  ghost predicate OthersKept(mem: Memory, mem': Memory, spaces: map<nat, Tables>, spaces': map<nat, Tables>,
                             handles: seq<nat>, handles': seq<nat>) {
    && (forall s | s in spaces && !HeldRoot(handles, s) ::
          s in spaces' && spaces'[s] == spaces[s] && SameTranslation(mem, mem', s, Private))
    && (forall s | HeldRoot(handles', s) :: HeldRoot(handles, s) || s !in spaces)
  }

  /** What one request does to everything that it is not about. */
  ghost predicate Confines(mem: Memory, mem': Memory, kernelRoot: nat, tab: Tables, tab': Tables,
                           spaces: map<nat, Tables>, spaces': map<nat, Tables>, handles: seq<nat>,
                           handles': seq<nat>, ops: seq<SpaceOp>) {
    && StaysClear(mem, mem', tab, tab') && OthersKept(mem, mem', spaces, spaces', handles, handles')
    && KernelSees(mem, mem', kernelRoot, ops)
  }

  lemma ConfinesTwice(a: Memory, b: Memory, c: Memory, kernelRoot: nat, r: Tables, s: Tables, t: Tables,
                      u: map<nat, Tables>, v: map<nat, Tables>, w: map<nat, Tables>, h: seq<nat>, i: seq<nat>,
                      j: seq<nat>, ops: seq<SpaceOp>, op: SpaceOp)
    requires Confines(a, b, kernelRoot, r, s, u, v, h, i, ops) && Confines(b, c, kernelRoot, s, t, v, w, i, j, [op])
    ensures Confines(a, c, kernelRoot, r, t, u, w, h, j, ops + [op])
  {
    hide NoLargePageOn, HeldRoot;
    SeesTwice(a, b, c, kernelRoot, ops, op);
    OthersTwice(a, b, c, u, v, w, h, i, j);
    assert StaysClear(a, c, r, t) by { hide OthersKept, KernelSees; }
  }

  lemma SeesTwice(a: Memory, b: Memory, c: Memory, kernelRoot: nat, ops: seq<SpaceOp>, op: SpaceOp)
    requires KernelSees(a, b, kernelRoot, ops) && KernelSees(b, c, kernelRoot, [op])
    ensures KernelSees(a, c, kernelRoot, ops + [op])
  {
    hide Translate, Touches;
    forall v: nat | forall o | o in ops + [op] :: !Touches(o, v)
      ensures Translate(c, kernelRoot, v) == Translate(a, kernelRoot, v)
    {
      assert forall o | o in ops :: o in ops + [op];
      assert forall o | o in [op] :: o in ops + [op];
      assert Translate(b, kernelRoot, v) == Translate(a, kernelRoot, v);
      assert Translate(c, kernelRoot, v) == Translate(b, kernelRoot, v);
    }
  }

  lemma OthersTwice(a: Memory, b: Memory, c: Memory, u: map<nat, Tables>, v: map<nat, Tables>, w: map<nat, Tables>,
                    h: seq<nat>, i: seq<nat>, j: seq<nat>)
    requires OthersKept(a, b, u, v, h, i) && OthersKept(b, c, v, w, i, j)
    ensures OthersKept(a, c, u, w, h, j)
  {
    hide SameTranslation, HeldRoot;
    forall s | s in u && !HeldRoot(h, s)
      ensures s in w && w[s] == u[s] && SameTranslation(a, c, s, Private)
    {
      assert s in v && !HeldRoot(i, s);
      TranslationTwice(a, b, c, s);
    }
    forall s | HeldRoot(j, s)
      ensures HeldRoot(h, s) || s !in u
    {
      assert s in u && !HeldRoot(h, s) ==> s in v && !HeldRoot(i, s);
    }
  }

  lemma TranslationTwice(a: Memory, b: Memory, c: Memory, s: nat)
    requires SameTranslation(a, b, s, Private) && SameTranslation(b, c, s, Private)
    ensures SameTranslation(a, c, s, Private)
  {
    hide Translate, InRegion;
  }

  /** A request outside the kernel's tables. */
  lemma KernelApart(mem: Memory, mem': Memory, kernelRoot: nat, kernelTables: Tables, op: SpaceOp)
    requires KernelKept(mem, mem', kernelTables) && SameEverywhere(mem, mem', kernelRoot)
    ensures StaysClear(mem, mem', kernelTables, kernelTables) && KernelSees(mem, mem', kernelRoot, [op])
  {
    hide NoLargePageOn, Translate;
    forall v: nat | NoLargePageOn(mem, kernelTables, v)
      ensures NoLargePageOn(mem', kernelTables, v)
    {
      KeptClear(mem, mem', kernelTables, v);
    }
  }

  /** A request in the kernel. */
  lemma KernelGrown(mem: Memory, mem': Memory, kernelRoot: nat, tab: Tables, tab': Tables, op: SpaceOp, w: Word)
    requires Grows(mem, mem', tab, tab', Whole) && Bounded(tab', |mem'|) && op.InKernel?
    requires Remapped(mem, mem', kernelRoot, Whole, op.op.virt, w) || SameTranslation(mem, mem', kernelRoot, Whole)
    ensures StaysClear(mem, mem', tab, tab') && KernelSees(mem, mem', kernelRoot, [op])
  {
    hide NoLargePageOn, Translate, Grows, SamePage, LeafTranslation;
    assert Bounded(tab, |mem|) by { GrownBounded(mem, mem', tab, tab'); }
    forall v: nat | NoLargePageOn(mem, tab, v)
      ensures NoLargePageOn(mem', tab', v)
    {
      GrownClear(mem, mem', tab, tab', v);
    }
    forall v: nat | forall o | o in [op] :: !Touches(o, v)
      ensures Translate(mem', kernelRoot, v) == Translate(mem, kernelRoot, v)
    {
      assert op in [op] && InRegion(Whole, v);
    }
  }

  lemma GrownBounded(mem: Memory, mem': Memory, tab: Tables, tab': Tables)
    requires Grows(mem, mem', tab, tab', Whole)
    ensures Bounded(tab, |mem|)
  {
  }

  lemma KeptClear(mem: Memory, mem': Memory, kernelTables: Tables, v: nat)
    requires KernelKept(mem, mem', kernelTables) && NoLargePageOn(mem, kernelTables, v)
    ensures NoLargePageOn(mem', kernelTables, v)
  {
    hide LargePage, Index;
    forall d: nat | 1 <= d < 3 && PathTo(v, d) in kernelTables
      ensures !LargePage(mem'[kernelTables[PathTo(v, d)]][Index(d, v)])
    {
      assert !LargePage(mem[kernelTables[PathTo(v, d)]][Index(d, v)]);
    }
  }

  lemma GrownClear(mem: Memory, mem': Memory, tab: Tables, tab': Tables, v: nat)
    requires Grows(mem, mem', tab, tab', Whole) && Bounded(tab', |mem'|) && NoLargePageOn(mem, tab, v)
    ensures NoLargePageOn(mem', tab', v)
  {
    hide LargePage, Index, Covers;
    forall d: nat | 1 <= d < 3 && PathTo(v, d) in tab'
      ensures !LargePage(mem'[tab'[PathTo(v, d)]][Index(d, v)])
    {
      var p, x := PathTo(v, d), Index(d, v);
      assert p in tab ==> !LargePage(mem[tab[p]][x]);
    }
  }

  /** The addresses that a caller got from `CreateAddressSpace` and has not destroyed. */
  ghost predicate Held(handles: seq<nat>, spaces: map<nat, Tables>) {
    && (forall i | 0 <= i < |handles| :: HeldOne(handles[i], spaces))
    && (forall i, j | 0 <= i < j < |handles| :: handles[i] != handles[j])
  }

  ghost predicate HeldOne(pml4: nat, spaces: map<nat, Tables>) {
    pml4 != 0 && pml4 % PAGE_SIZE == 0 && pml4 / PAGE_SIZE in spaces
  }

  lemma HeldMore(handles: seq<nat>, spaces: map<nat, Tables>, spaces': map<nat, Tables>, pml4: nat)
    requires Held(handles, spaces) && HeldOne(pml4, spaces') && pml4 / PAGE_SIZE !in spaces
    requires spaces.Keys <= spaces'.Keys
    ensures Held(handles + [pml4], spaces')
  {
  }

  lemma HeldNew(handles: seq<nat>, before: map<nat, Tables>, after: map<nat, Tables>, pml4: nat, root: nat,
                free: set<nat>)
    requires Held(handles, before) && pml4 == root * PAGE_SIZE && pml4 != 0
    requires root !in before && root in after && after == before[root := after[root]] && after[root].Values <= free
    ensures Held(handles + [pml4], after)
    ensures free - after[root].Values + AllTables(after) == free + AllTables(before)
  {
    hide AllTables;
    HeldMore(handles, before, after, pml4);
    CreatedTables(before, after, root);
  }

  lemma HeldLess(handles: seq<nat>, spaces: map<nat, Tables>, h: nat)
    requires Held(handles, spaces) && h < |handles|
    ensures HeldOne(handles[h], spaces) && Held(handles[..h] + handles[h + 1..], spaces - {handles[h] / PAGE_SIZE})
  {
    var rest := handles[..h] + handles[h + 1..];
    forall i | 0 <= i < |rest|
      ensures HeldOne(rest[i], spaces - {handles[h] / PAGE_SIZE})
    {
      var j := if i < h then i else i + 1;
      assert rest[i] == handles[j];
      if handles[j] / PAGE_SIZE == handles[h] / PAGE_SIZE {
        SamePointer(handles[j], handles[h]);
      }
    }
  }

  lemma SamePointer(a: nat, b: nat)
    requires a % PAGE_SIZE == 0 && b % PAGE_SIZE == 0 && a / PAGE_SIZE == b / PAGE_SIZE
    ensures a == b
  {
  }

  /** All table frames of all live spaces. */
  ghost function AllTables(spaces: map<nat, Tables>): set<nat> {
    set s, p | s in spaces && p in spaces[s] :: spaces[s][p]
  }

  lemma AllTablesWithout(spaces: map<nat, Tables>, s: nat)
    requires s in spaces
    ensures AllTables(spaces) == AllTables(spaces - {s}) + spaces[s].Values
  {
    forall f | f in AllTables(spaces)
      ensures f in AllTables(spaces - {s}) + spaces[s].Values
    {
      var a, p :| a in spaces && p in spaces[a] && spaces[a][p] == f;
      if a == s {
        assert f in spaces[s].Values;
      } else {
        assert a in spaces - {s} && (spaces - {s})[a][p] == f;
      }
    }
    forall f | f in AllTables(spaces - {s})
      ensures f in AllTables(spaces)
    {
      var a, p :| a in spaces - {s} && p in (spaces - {s})[a] && (spaces - {s})[a][p] == f;
      assert a in spaces && p in spaces[a];
    }
    forall f | f in spaces[s].Values
      ensures f in AllTables(spaces)
    {
      var p :| p in spaces[s] && spaces[s][p] == f;
    }
  }

  lemma CreatedTables(before: map<nat, Tables>, after: map<nat, Tables>, s: nat)
    requires s !in before && s in after && after == before[s := after[s]]
    ensures AllTables(after) == AllTables(before) + after[s].Values
  {
    AllTablesWithout(after, s);
    assert after - {s} == before;
  }

  lemma OnlyAdded(before: map<nat, Tables>, after: map<nat, Tables>, s: nat)
    requires s !in before && s in after && after == before[s := after[s]]
    ensures after - {s} == before
  {
  }

  lemma AllReturned(free0: set<nat>, free1: set<nat>, free2: set<nat>, tab1: Tables, tab2: Tables)
    requires tab1.Values <= free0 && free1 == free0 - tab1.Values && FramesConserved(free1, free2, tab1, tab2)
    ensures free2 + tab2.Values == free0
  {
  }

  lemma SameTwice(a: Memory, b: Memory, c: Memory)
    ensures forall r: nat :: SameEverywhere(a, b, r) && SameEverywhere(b, c, r) ==> SameEverywhere(a, c, r)
  {
  }

  lemma FramesMoved(free: set<nat>, free': set<nat>, others: set<nat>, tab: Tables, tab': Tables)
    requires FramesConserved(free, free', tab, tab')
    ensures free' + others + tab'.Values == free + others + tab.Values
  {
    assert free' + others + tab'.Values == (free' + tab'.Values) + others;
  }

  lemma ConservedTwice(a: set<nat>, b: set<nat>, c: set<nat>, s: Tables, t: Tables, u: Tables)
    requires FramesConserved(a, b, s, t) && FramesConserved(b, c, t, u)
    ensures FramesConserved(a, c, s, u)
  {
  }

  lemma Unchanged(mem: Memory)
    ensures forall r: nat :: SameEverywhere(mem, mem, r)
  {
  }

  lemma TablesNotFree(mem: Memory, kernelRoot: nat, kernelTables: Tables, spaces: map<nat, Tables>, free: set<nat>,
                      ks: nat, ke: nat)
    requires Invariant(mem, kernelRoot, kernelTables, spaces, free, ks, ke)
    ensures free !! AllTables(spaces)
  {
    hide Tree, SpaceOk, Reserved;
    forall f | f in AllTables(spaces)
      ensures f !in free
    {
      var a, p :| a in spaces && p in spaces[a] && spaces[a][p] == f;
      assert Owned(spaces[a], kernelTables, free, ks, ke);
      assert f in spaces[a].Values;
    }
  }

  lemma NotKernel(mem: Memory, kernelRoot: nat, kernelTables: Tables, spaces: map<nat, Tables>, free: set<nat>,
                  ks: nat, ke: nat, s: nat)
    requires Invariant(mem, kernelRoot, kernelTables, spaces, free, ks, ke) && s in spaces
    ensures s != kernelRoot && s != 0 && spaces[s].Values !! free
  {
    assert Owned(spaces[s], kernelTables, free, ks, ke) && SpaceOk(mem, s, spaces[s], kernelTables);
    RootIsOwn(mem, s, spaces[s], kernelTables);
    KernelParts(mem, kernelRoot, kernelTables, spaces, free, ks, ke);
    assert kernelTables[Root] in kernelTables.Values;
    Pmm.PageZeroReserved(ks, ke);
  }

  lemma SameElsewhere(a: map<nat, Tables>, b: map<nat, Tables>, s: nat)
    requires a.Keys == b.Keys && forall k | k in a && k != s :: a[k] == b[k]
    ensures a - {s} == b - {s}
  {
  }

  lemma NothingConfined(mem: Memory, kernelRoot: nat, kernelTables: Tables, spaces: map<nat, Tables>)
    requires Bounded(kernelTables, |mem|)
    ensures Confines(mem, mem, kernelRoot, kernelTables, kernelTables, spaces, spaces, [], [], [])
  {
    hide NoLargePageOn, Translate;
  }

  lemma StillClear(mem: Memory, mem': Memory, kernelRoot: nat, tab: Tables, tab': Tables, spaces: map<nat, Tables>,
                   spaces': map<nat, Tables>, handles: seq<nat>, ops: seq<SpaceOp>, i: nat)
    requires i < |ops| && Confines(mem, mem', kernelRoot, tab, tab', spaces, spaces', [], handles, ops[..i])
    requires Bounded(tab, |mem|) && OffLargePages(mem, tab, ops)
    ensures Bounded(tab', |mem'|) && (ops[i].InKernel? ==> NoLargePageOn(mem', tab', ops[i].op.virt))
  {
    hide NoLargePageOn, OthersKept, KernelSees;
    assert ops[i] in ops;
  }

  lemma ConfinesAll(mem: Memory, mem': Memory, kernelRoot: nat, tab: Tables, tab': Tables, spaces: map<nat, Tables>,
                    spaces': map<nat, Tables>, handles: seq<nat>, ops: seq<SpaceOp>)
    requires Confines(mem, mem', kernelRoot, tab, tab', spaces, spaces', [], handles, ops)
    ensures KernelSees(mem, mem', kernelRoot, ops)
    ensures forall s | s in spaces :: s in spaces' && spaces'[s] == spaces[s] && SameTranslation(mem, mem', s, Private)
  {
    hide StaysClear, KernelSees, SameTranslation;
    assert forall s :: !HeldRoot([], s);
  }

  lemma AllTablesApart(spaces: map<nat, Tables>, other: set<nat>)
    requires forall s | s in spaces :: spaces[s].Values !! other
    ensures AllTables(spaces) !! other
  {
    forall f | f in AllTables(spaces)
      ensures f !in other
    {
      var a, p :| a in spaces && p in spaces[a] && spaces[a][p] == f;
      assert f in spaces[a].Values;
    }
  }

  /** The kernel's tables are bounded and not free. */
  lemma FreeApart(mem: Memory, kernelRoot: nat, kernelTables: Tables, spaces: map<nat, Tables>, free: set<nat>,
                  ks: nat, ke: nat)
    requires Invariant(mem, kernelRoot, kernelTables, spaces, free, ks, ke)
    ensures Bounded(kernelTables, |mem|) && kernelTables.Values !! free
    ensures forall s | s in spaces :: spaces[s].Values !! kernelTables.Values
  {
    hide SpaceOk, Reserved;
    forall s | s in spaces
      ensures spaces[s].Values !! kernelTables.Values
    {
      assert Owned(spaces[s], kernelTables, free, ks, ke);
    }
  }

  lemma KernelNotWritten(mem: Memory, mem': Memory, kernelTables: Tables, written: set<nat>)
    requires Bounded(kernelTables, |mem|) && kernelTables.Values !! written && |mem'| == |mem|
    requires forall f | 0 <= f < |mem| && f !in written :: mem'[f] == mem[f]
    ensures KernelKept(mem, mem', kernelTables)
  {
    forall p | p in kernelTables
      ensures mem'[kernelTables[p]] == mem[kernelTables[p]]
    {
      assert kernelTables[p] in kernelTables.Values;
    }
  }

  lemma SameInside(mem: Memory, mem': Memory, s: nat)
    requires SameEverywhere(mem, mem', s)
    ensures SameTranslation(mem, mem', s, Private)
  {
    hide Translate, InRegion;
  }

  lemma SameAsBefore(mem: Memory, root: nat)
    ensures SameTranslation(mem, mem, root, Whole)
  {
  }

  lemma OthersSame(mem: Memory, mem': Memory, spaces: map<nat, Tables>, handles: seq<nat>)
    requires forall s | s in spaces :: SameEverywhere(mem, mem', s)
    ensures OthersKept(mem, mem', spaces, spaces, handles, handles)
  {
    hide SameEverywhere, SameTranslation, HeldRoot;
    forall s | s in spaces
      ensures SameTranslation(mem, mem', s, Private)
    {
      SameInside(mem, mem', s);
    }
  }

  lemma OthersAndNew(mem: Memory, mem': Memory, spaces: map<nat, Tables>, spaces': map<nat, Tables>, handles: seq<nat>,
                     pml4: nat)
    requires pml4 / PAGE_SIZE !in spaces && pml4 / PAGE_SIZE in spaces'
    requires spaces' == spaces[pml4 / PAGE_SIZE := spaces'[pml4 / PAGE_SIZE]]
    requires forall s | s in spaces :: SameEverywhere(mem, mem', s)
    ensures OthersKept(mem, mem', spaces, spaces', handles, handles + [pml4])
  {
    hide SameEverywhere, SameTranslation;
    forall s | s in spaces
      ensures SameTranslation(mem, mem', s, Private)
    {
      SameInside(mem, mem', s);
    }
    forall s | HeldRoot(handles + [pml4], s)
      ensures HeldRoot(handles, s) || s !in spaces
    {
      var i :| 0 <= i < |handles + [pml4]| && (handles + [pml4])[i] / PAGE_SIZE == s;
      if i < |handles| {
        assert handles[i] / PAGE_SIZE == s;
      }
    }
  }

  lemma OthersWithout(mem: Memory, spaces: map<nat, Tables>, handles: seq<nat>, h: nat)
    requires h < |handles|
    ensures OthersKept(mem, mem, spaces, spaces - {handles[h] / PAGE_SIZE}, handles,
                       handles[..h] + handles[h + 1..])
  {
    hide Translate, InRegion;
    var rest := handles[..h] + handles[h + 1..];
    assert HeldRoot(handles, handles[h] / PAGE_SIZE);
    forall s | HeldRoot(rest, s)
      ensures HeldRoot(handles, s)
    {
      var i :| 0 <= i < |rest| && rest[i] / PAGE_SIZE == s;
      assert handles[if i < h then i else i + 1] / PAGE_SIZE == s;
    }
  }

  lemma OthersInSpace(mem: Memory, mem': Memory, spaces: map<nat, Tables>, spaces': map<nat, Tables>,
                      handles: seq<nat>, h: nat)
    requires h < |handles| && spaces'.Keys == spaces.Keys
    requires forall s | s in spaces' && s != handles[h] / PAGE_SIZE ::
               spaces'[s] == spaces[s] && SameEverywhere(mem, mem', s)
    ensures OthersKept(mem, mem', spaces, spaces', handles, handles)
  {
    hide SameEverywhere, SameTranslation;
    assert HeldRoot(handles, handles[h] / PAGE_SIZE);
    forall s | s in spaces && !HeldRoot(handles, s)
      ensures SameTranslation(mem, mem', s, Private)
    {
      assert s in spaces';
      SameInside(mem, mem', s);
    }
  }

  lemma OthersBesideKernel(mem: Memory, mem': Memory, spaces: map<nat, Tables>, handles: seq<nat>)
    requires forall s | s in spaces :: SameTranslation(mem, mem', s, Private)
    ensures OthersKept(mem, mem', spaces, spaces, handles, handles)
  {
    hide SameTranslation, HeldRoot;
  }

  class MemoryManager {
    const pmm: Pmm.PageAllocator
    const kernelRoot: nat
    var mem: Memory
    ghost var kernelTables: Tables
    ghost var spaces: map<nat, Tables>

    /** The ownership invariant. */
    ghost predicate Valid()
      reads this, pmm, pmm.bitmap
    {
      && pmm.Valid() && (spaces != map[] ==> pmm.ready)
      && Invariant(mem, kernelRoot, kernelTables, spaces, pmm.Free(), pmm.kernelStart, pmm.kernelEnd)
    }

    /** `vmm_init` takes over the tables that the boot code has loaded. */
    constructor (pmm: Pmm.PageAllocator, mem: Memory, kernelRoot: nat, ghost kernelTables: Tables)
      requires pmm.Valid() && |mem| >= Pmm.MAX_PAGES && KernelOk(mem, kernelRoot, kernelTables, pmm.Free())
      ensures Valid() && spaces == map[] && this.pmm == pmm && this.mem == mem && this.kernelRoot == kernelRoot
      ensures this.kernelTables == kernelTables
    {
      this.pmm, this.mem, this.kernelRoot, this.kernelTables, this.spaces := pmm, mem, kernelRoot, kernelTables, map[];
    }

    /** Writes zero into each of the 512 entries of a fresh table. */
    method ZeroFrame(f: nat)
      requires f < |mem|
      modifies this`mem
      ensures mem == old(mem)[f := ZeroTable()]
    {
      for i := 0 to ENTRIES
        invariant |mem| == |old(mem)|
        invariant forall g | 0 <= g < |mem| && g != f :: mem[g] == old(mem)[g]
        invariant forall k | 0 <= k < i :: mem[f][k] == 0
      {
        mem := Store(mem, f, i, 0);
      }
      assert mem[f] == ZeroTable();
    }

    /** Copies the first `n` entries of one table into another. */
    method CopyEntries(dst: nat, src: nat, n: nat)
      requires dst < |mem| && src < |mem| && dst != src && n <= ENTRIES
      modifies this`mem
      ensures mem == old(mem)[dst := old(mem)[src][..n] + old(mem)[dst][n..]]
    {
      for i := 0 to n
        invariant |mem| == |old(mem)|
        invariant forall g | 0 <= g < |mem| && g != dst :: mem[g] == old(mem)[g]
        invariant forall k | 0 <= k < i :: mem[dst][k] == old(mem)[src][k]
        invariant forall k | i <= k < ENTRIES :: mem[dst][k] == old(mem)[dst][k]
      {
        mem := Store(mem, dst, i, Load(mem, src, i));
      }
      assert mem[dst] == old(mem)[src][..n] + old(mem)[dst][n..];
    }

    /** A user mapping sets the user bit of every pointer on its way. */
    method MarkUser(parent: nat, idx: nat, flags: Word)
      requires parent < |mem| && idx < ENTRIES
      modifies this`mem
      ensures mem == Marked(old(mem), parent, idx, flags)
    {
      hide User;
      if User(flags) && !User(Load(mem, parent, idx)) {
        SetUserFits(Load(mem, parent, idx));
        mem := Store(mem, parent, idx, Load(mem, parent, idx) + 4);
      }
    }

    /** One level of `vmm_map_page`: find the table behind an entry, or hang a new one there. */
    method EnsureTable(parent: nat, idx: nat, flags: Word, ghost root: nat, ghost tab: Tables, ghost r: Region,
                       ghost p: Pos)
      returns (ok: bool, child: nat, ghost tab': Tables)
      requires pmm.Valid() && |mem| >= Pmm.MAX_PAGES && Tree(mem, root, tab, r) && tab.Values !! pmm.Free()
      requires p in tab && tab[p] == parent && Depth(p) < 3 && idx < ENTRIES && Covers(r, p, idx)
      requires Depth(p) >= 1 ==> !LargePage(mem[parent][idx])
      modifies this`mem, pmm, pmm.bitmap
      ensures pmm.Valid() && pmm.ready == old(pmm.ready) && pmm.Surplus() == old(pmm.Surplus()) && |mem| == |old(mem)|
      ensures Step(old(mem), mem, old(pmm.Free()), pmm.Free(), tab, tab', root, r)
      ensures ok ==> Sub(p, idx) in tab' && child == tab'[Sub(p, idx)]
      ensures Added(tab, tab', Sub(p, idx), ok, |old(pmm.Free())|, |pmm.Free()|)
      ensures !ok ==> pmm.Free() == {}
      ensures Marks(old(mem), mem, tab, tab', User(flags))
      ensures ok && User(flags) ==> Gives(Entry(mem, tab', p, idx), UserMode)
    {
      hide Pmm.ClearBits, Tree, Step, Covers, User, Present, Frame, LargePage, Marks, Gives, Entry;
      ok, child, tab' := true, 0, tab;
      RootOf(mem, root, tab, r);
      if !Present(Load(mem, parent, idx)) {
        NoPointer(mem, root, tab, r, p, idx);
        ok, tab' := LinkNewTable(parent, idx, flags, root, tab, r, p);
        if !ok {
          return;
        }
      } else {
        PointerAt(mem, root, tab, r, p, idx);
        if User(flags) && !User(Load(mem, parent, idx)) {
          SetUserFits(Load(mem, parent, idx));
          UserStep(mem, root, tab, r, p, idx, pmm.Free());
        } else {
          NoStep(mem, root, tab, r, pmm.Free());
        }
        MarkedEntry(mem, root, tab, r, p, idx, flags);
        MarkUser(parent, idx, flags);
      }
      StepTree(old(mem), mem, old(pmm.Free()), pmm.Free(), tab, tab', root, r, p, idx);
      child := Frame(Load(mem, parent, idx));
    }

    method LinkNewTable(parent: nat, idx: nat, flags: Word, ghost root: nat, ghost tab: Tables, ghost r: Region,
                        ghost p: Pos)
      returns (ok: bool, ghost tab': Tables)
      requires pmm.Valid() && |mem| >= Pmm.MAX_PAGES && Tree(mem, root, tab, r) && tab.Values !! pmm.Free()
      requires p in tab && tab[p] == parent < |mem| && Depth(p) < 3 && idx < ENTRIES && Covers(r, p, idx)
      requires !Present(mem[parent][idx])
      modifies this`mem, pmm, pmm.bitmap
      ensures pmm.Valid() && pmm.ready == old(pmm.ready) && pmm.Surplus() == old(pmm.Surplus()) && |mem| == |old(mem)|
      ensures Step(old(mem), mem, old(pmm.Free()), pmm.Free(), tab, tab', root, r)
      ensures if ok then tab'.Keys == tab.Keys + {Sub(p, idx)} && |pmm.Free()| + 1 == |old(pmm.Free())|
              else tab' == tab && pmm.Free() == old(pmm.Free()) == {}
      ensures Marks(old(mem), mem, tab, tab', User(flags))
      ensures ok && User(flags) ==> Gives(Entry(mem, tab', p, idx), UserMode)
    {
      hide Pmm.ClearBits, Tree, Covers, User, Present, Step, TableEntry, Marks, Gives, Entry;
      var newTable := pmm.AllocPage();
      if newTable == 0 {
        NoStep(mem, root, tab, r, pmm.Free());
        NothingMarked(mem, tab, User(flags));
        return false, tab;
      }
      var f := newTable / PAGE_SIZE;
      assert f in old(pmm.Free());
      FreeBelowLimit(old(pmm.bitmap[..]), f);
      NewTableStep(mem, root, tab, r, p, idx, f, flags, old(pmm.Free()));
      NewTableMarked(mem, root, tab, r, p, idx, f, flags);
      ZeroFrame(f);
      mem := Store(mem, parent, idx, TableEntry(f, flags));
      return true, tab[Sub(p, idx) := f];
    }

    /** `vmm_map_page` where the first three entries are present, with no tree assumed. */
    method MapPresent(root: nat, virt: Word, phys: Word, flags: Word)
      requires PresentPath(mem, root, virt)
      modifies this`mem
      ensures mem == Store(WalkMarked(old(mem), root, virt, flags), old(WalkFrame(mem, root, virt, 3)), Index(3, virt),
                           LeafEntry(phys, flags))
    {
      hide Present, Frame, User, Index, LeafEntry;
      ghost var was := mem;
      MarkUser(root, Index(0, virt), flags);
      MarkedSame(was, root, Index(0, virt), flags);
      var pdpt := Frame(Load(mem, root, Index(0, virt)));
      ghost var m1 := mem;
      MarkUser(pdpt, Index(1, virt), flags);
      MarkedSame(m1, pdpt, Index(1, virt), flags);
      var pd := Frame(Load(mem, pdpt, Index(1, virt)));
      ghost var m2 := mem;
      MarkUser(pd, Index(2, virt), flags);
      MarkedSame(m2, pd, Index(2, virt), flags);
      var pt := Frame(Load(mem, pd, Index(2, virt)));
      FramesOfPath(was, root, virt);
      mem := Store(mem, pt, Index(3, virt), LeafEntry(phys, flags));
    }

    /** `vmm_map_page` on the tree at `root`: success redirects exactly the one page; failure means that memory ran out
        and changes no translation, whatever tables were added on the way. */
    method MapIn(root: nat, virt: Word, phys: Word, flags: Word, ghost tab: Tables, ghost r: Region)
      returns (ok: bool, ghost tab': Tables)
      requires pmm.Valid() && |mem| >= Pmm.MAX_PAGES && Tree(mem, root, tab, r) && tab.Values !! pmm.Free()
      requires InRegion(r, virt) && NoLargePageOn(mem, tab, virt)
      modifies this`mem, pmm, pmm.bitmap
      ensures pmm.Valid() && pmm.ready == old(pmm.ready) && pmm.Surplus() == old(pmm.Surplus())
      ensures Tree(mem, root, tab', r) && Grows(old(mem), mem, tab, tab', r)
      ensures FramesConserved(old(pmm.Free()), pmm.Free(), tab, tab')
      ensures ok <==> Missing(tab, virt) <= |old(pmm.Free())|
      ensures !ok ==> pmm.Free() == {} && SameTranslation(old(mem), mem, root, r)
      ensures ok ==> PathTo(virt, 3) in tab' && mem[tab'[PathTo(virt, 3)]][Index(3, virt)] == LeafEntry(phys, flags)
      ensures ok ==> Remapped(old(mem), mem, root, r, virt, LeafEntry(phys, flags))
      ensures ok ==> Entry(mem, tab', PathTo(virt, 3), Index(3, virt)) % 4096 == flags % 4096 + (1 - flags % 2)
      ensures ok ==> (Granted(mem, root, 0, virt, UserMode) <==> Gives(flags, UserMode))
      ensures ok ==> (PageGives(mem, root, 0, virt, UserMode) <==> Gives(flags, UserMode))
      ensures ok ==> (Granted(mem, root, 0, virt, Writing) <==>
                      Gives(flags, Writing) && PointersGive(old(mem), tab, virt, Writing))
      ensures MarksBut(old(mem), mem, tab, tab', User(flags), virt)
      ensures RightsKept(old(mem), mem, root, r, virt, User(flags))
    {
      hide Pmm.ClearBits, Tree, LargePage, Index, InRegion, NoLargePageOn, Covers, LeafEntry, Step, Grows, Remapped,
           SameTranslation, Marks, MarksBut, RightsKept, Granted, PageGives, Gives, PointersGive, User;
      hide FramesConserved, Bounded;
      ghost var path := PathNames(virt);
      PathCovered(r, virt, 0);
      PathCovered(r, virt, 1);
      PathCovered(r, virt, 2);
      RootOf(mem, root, tab, r);
      var pt := 0;
      ok, pt, tab' := WalkDown(root, virt, flags, tab, r);
      StepParts(old(mem), mem, old(pmm.Free()), pmm.Free(), tab, tab', root, r);
      GrownTables(old(mem), mem, tab, tab', r);
      MarksAlso(old(mem), mem, tab, tab', User(flags), virt);
      RightsAfter(old(mem), mem, root, tab, tab', r, User(flags), virt);
      if ok {
        ghost var mem3 := mem;
        BoundedTree(mem, root, tab', r);
        TableInMemory(mem, tab', PathTo(virt, 3));
        mem := Store(mem, pt, Index(3, virt), LeafEntry(phys, flags));
        LeafEntryBits(phys, flags);
        LeafStep(mem3, root, tab', r, virt, LeafEntry(phys, flags));
        GrowsTransitive(old(mem), mem3, mem, tab, tab', tab', r);
        RemappedFrom(old(mem), mem3, mem, root, r, virt, LeafEntry(phys, flags));
        LeafFlags(phys, flags);
        MappedRights(old(mem), mem3, root, tab, tab', r, flags, virt, LeafEntry(phys, flags));
      }
    }

    /** `vmm_unmap_page` on the tree at `root`: clears the entry if there is one, and says whether there was. */
    method UnmapIn(root: nat, virt: Word, ghost tab: Tables, ghost r: Region) returns (ok: bool)
      requires |mem| >= Pmm.MAX_PAGES && Tree(mem, root, tab, r) && InRegion(r, virt) && NoLargePageOn(mem, tab, virt)
      modifies this`mem
      ensures Tree(mem, root, tab, r) && Grows(old(mem), mem, tab, tab, r)
      ensures ok <==> Translate(old(mem), root, virt).Some?
      ensures ok ==> Remapped(old(mem), mem, root, r, virt, 0)
      ensures !ok ==> mem == old(mem)
      ensures MarksBut(old(mem), mem, tab, tab, false, virt) && RightsKept(old(mem), mem, root, r, virt, false)
    {
      hide Present, Index, InRegion, Covers, Grows, Frame, Tree, Remapped, NoLargePageOn, MarksBut, RightsKept;
      UnmappedRights(mem, root, tab, r, virt);
      RootOf(mem, root, tab, r);
      NoStep(mem, root, tab, r, {});
      StepParts(mem, mem, {}, {}, tab, tab, root, r);
      ghost var path := PathNames(virt);
      Descend(mem, root, tab, r, virt, 0);
      if !Present(Load(mem, root, Index(0, virt))) {
        return false;
      }
      var pdpt := Frame(Load(mem, root, Index(0, virt)));
      Descend(mem, root, tab, r, virt, 1);
      if !Present(Load(mem, pdpt, Index(1, virt))) {
        return false;
      }
      var pd := Frame(Load(mem, pdpt, Index(1, virt)));
      Descend(mem, root, tab, r, virt, 2);
      if !Present(Load(mem, pd, Index(2, virt))) {
        return false;
      }
      var pt := Frame(Load(mem, pd, Index(2, virt)));
      Descend(mem, root, tab, r, virt, 3);
      if !Present(Load(mem, pt, Index(3, virt))) {
        return false;
      }
      LeafStep(mem, root, tab, r, virt, 0);
      RemappedIntro(mem, Store(mem, pt, Index(3, virt), 0), root, r, virt, 0);
      mem := Store(mem, pt, Index(3, virt), 0);
      return true;
    }

    /** `vmm_get_phys` */
    method ReadPhys(root: nat, virt: Word) returns (phys: nat)
      ensures phys == GetPhys(mem, root, virt)
    {
      hide Present, Index;
      var w4 := Load(mem, root, Index(0, virt));
      if !Present(w4) {
        return 0;
      }
      var w3 := Load(mem, Frame(w4), Index(1, virt));
      if !Present(w3) {
        return 0;
      }
      var w2 := Load(mem, Frame(w3), Index(2, virt));
      if !Present(w2) {
        return 0;
      }
      var w1 := Load(mem, Frame(w2), Index(3, virt));
      if !Present(w1) {
        return 0;
      }
      assert SoftFrom(mem, Frame(w2), 3, virt) == Some(Frame(w1) * PAGE_SIZE + virt % PAGE_SIZE);
      assert SoftFrom(mem, Frame(w3), 2, virt) == SoftFrom(mem, Frame(w2), 3, virt);
      return AlignDown(w1, PAGE_SIZE) + virt % PAGE_SIZE;
    }

    // ---------- operations on the whole system ----------

    /** `vmm_map_page` on a created space, in [4 GiB, 512 GiB). No other translation of any space changes. */
    method MapUser(root: nat, virt: Word, phys: Word, flags: Word) returns (ok: bool)
      requires Valid() && root in spaces && InRegion(Private, virt)
      modifies this`mem, this`spaces, pmm, pmm.bitmap
      ensures Valid() && spaces.Keys == old(spaces).Keys
      ensures forall s | s in spaces && s != root :: spaces[s] == old(spaces)[s]
      ensures pmm.Surplus() == old(pmm.Surplus()) && pmm.ready == old(pmm.ready)
      ensures FramesConserved(old(pmm.Free()), pmm.Free(), old(spaces)[root], spaces[root])
      ensures ok <==> Missing(old(spaces)[root], virt) <= |old(pmm.Free())|
      ensures !ok ==> pmm.Free() == {} && SameEverywhere(old(mem), mem, root)
      ensures ok ==> RemappedUser(old(mem), mem, root, virt, LeafEntry(phys, flags))
      ensures ok ==> GetPhys(mem, root, virt) == Frame(LeafEntry(phys, flags)) * PAGE_SIZE + virt % PAGE_SIZE
      ensures SameEverywhere(old(mem), mem, kernelRoot)
      ensures forall s | s in spaces && s != root :: SameEverywhere(old(mem), mem, s)
      ensures |mem| == |old(mem)| && forall f | 0 <= f < |mem| && f !in spaces[root].Values :: mem[f] == old(mem)[f]
      ensures ok ==> Entry(mem, spaces[root], PathTo(virt, 3), Index(3, virt)) % 4096 == flags % 4096 + (1 - flags % 2)
      ensures ok ==> (Granted(mem, root, 0, virt, UserMode) <==> Gives(flags, UserMode))
      ensures ok ==> (PageGives(mem, root, 0, virt, UserMode) <==> Gives(flags, UserMode))
      ensures ok ==> (Granted(mem, root, 0, virt, Writing) <==>
                      Gives(flags, Writing) && PointersGive(old(mem), old(spaces)[root], virt, Writing))
      ensures MarksBut(old(mem), mem, old(spaces)[root], spaces[root], User(flags), virt)
      ensures RightsKept(old(mem), mem, root, Private, virt, User(flags))
      ensures Open(old(mem), old(spaces)[root]) ==> Open(mem, spaces[root])
      ensures SameRights(old(mem), mem, kernelRoot, Whole)
      ensures forall s | s in spaces && s != root :: SameRights(old(mem), mem, s, Private)
    {
      hide Pmm.ClearBits, Invariant, Tree, Grows, FramesConserved, InRegion, SamePage, LeafEntry, Index,
           LeafTranslation, Reserved, Pmm.PageIsReserved, MarksBut, RightsKept, Granted, PageGives, Gives, PointersGive,
           User, Open, SameRights;
      InvariantParts(mem, kernelRoot, kernelTables, spaces, pmm.Free(), pmm.kernelStart, pmm.kernelEnd, root);
      ghost var tab, tab' := spaces[root], map[];
      UserPathClear(mem, root, tab, kernelTables, virt);
      FreeNotReserved();
      ok, tab' := MapIn(root, virt, phys, flags, tab, Private);
      GrownOnly(old(mem), mem, tab, tab', Private);
      UserOperation(old(mem), mem, kernelRoot, kernelTables, spaces, old(pmm.Free()), pmm.Free(), pmm.kernelStart,
                    pmm.kernelEnd, root, tab');
      OthersRights(old(mem), mem, kernelRoot, kernelTables, spaces, old(pmm.Free()), pmm.Free(), pmm.kernelStart,
                   pmm.kernelEnd, root, tab');
      if Open(old(mem), tab) {
        OpenKept(old(mem), mem, root, tab, tab', Private, User(flags), virt);
      }
      spaces := spaces[root := tab'];
      if ok {
        InvariantParts(mem, kernelRoot, kernelTables, spaces, pmm.Free(), pmm.kernelStart, pmm.kernelEnd, root);
        UserPathClear(mem, root, tab', kernelTables, virt);
        LeafEntryBits(phys, flags);
        ReadsBack(mem, root, tab', Private, virt);
      }
    }

    /** `vmm_unmap_page` on a created space, in [4 GiB, 512 GiB). No table is freed. */
    method UnmapUser(root: nat, virt: Word) returns (ok: bool)
      requires Valid() && root in spaces && InRegion(Private, virt)
      modifies this`mem
      ensures Valid()
      ensures ok <==> Translate(old(mem), root, virt).Some?
      ensures !ok ==> mem == old(mem)
      ensures ok ==> RemappedUser(old(mem), mem, root, virt, 0)
      ensures SameEverywhere(old(mem), mem, kernelRoot)
      ensures forall s | s in spaces && s != root :: SameEverywhere(old(mem), mem, s)
      ensures |mem| == |old(mem)| && forall f | 0 <= f < |mem| && f !in spaces[root].Values :: mem[f] == old(mem)[f]
      ensures MarksBut(old(mem), mem, spaces[root], spaces[root], false, virt)
      ensures RightsKept(old(mem), mem, root, Private, virt, false)
      ensures Open(old(mem), spaces[root]) ==> Open(mem, spaces[root])
      ensures SameRights(old(mem), mem, kernelRoot, Whole)
      ensures forall s | s in spaces && s != root :: SameRights(old(mem), mem, s, Private)
    {
      hide Pmm.ClearBits, Invariant, Tree, Grows, InRegion, SamePage, Index, LeafTranslation, Reserved,
           Pmm.PageIsReserved, FramesConserved, MarksBut, RightsKept, Open, SameRights;
      InvariantParts(mem, kernelRoot, kernelTables, spaces, pmm.Free(), pmm.kernelStart, pmm.kernelEnd, root);
      UserPathClear(mem, root, spaces[root], kernelTables, virt);
      FreeNotReserved();
      NothingMoved(pmm.Free(), spaces[root]);
      ok := UnmapIn(root, virt, spaces[root], Private);
      GrownOnly(old(mem), mem, spaces[root], spaces[root], Private);
      UserOperation(old(mem), mem, kernelRoot, kernelTables, spaces, pmm.Free(), pmm.Free(), pmm.kernelStart,
                    pmm.kernelEnd, root, spaces[root]);
      OthersRights(old(mem), mem, kernelRoot, kernelTables, spaces, pmm.Free(), pmm.Free(), pmm.kernelStart,
                   pmm.kernelEnd, root, spaces[root]);
      if Open(old(mem), spaces[root]) {
        OpenKept(old(mem), mem, root, spaces[root], spaces[root], Private, false, virt);
      }
      assert spaces[root := spaces[root]] == spaces;
    }

    /** `vmm_map_page` with a null space: the kernel's own tables. The user areas of all spaces stay as they are. */
    method MapKernel(virt: Word, phys: Word, flags: Word) returns (ok: bool)
      requires Valid() && NoLargePageOn(mem, kernelTables, virt)
      modifies this`mem, this`kernelTables, pmm, pmm.bitmap
      ensures Valid() && pmm.Surplus() == old(pmm.Surplus()) && pmm.ready == old(pmm.ready)
      ensures FramesConserved(old(pmm.Free()), pmm.Free(), old(kernelTables), kernelTables)
      ensures ok <==> Missing(old(kernelTables), virt) <= |old(pmm.Free())|
      ensures !ok ==> pmm.Free() == {} && SameTranslation(old(mem), mem, kernelRoot, Whole)
      ensures ok ==> Remapped(old(mem), mem, kernelRoot, Whole, virt, LeafEntry(phys, flags))
      ensures forall s | s in spaces :: SameTranslation(old(mem), mem, s, Private)
      ensures Grows(old(mem), mem, old(kernelTables), kernelTables, Whole)
      ensures ok ==> Entry(mem, kernelTables, PathTo(virt, 3), Index(3, virt)) % 4096 == flags % 4096 + (1 - flags % 2)
      ensures ok ==> (Granted(mem, kernelRoot, 0, virt, UserMode) <==> Gives(flags, UserMode))
      ensures ok ==> (Granted(mem, kernelRoot, 0, virt, Writing) <==>
                      Gives(flags, Writing) && PointersGive(old(mem), old(kernelTables), virt, Writing))
      ensures MarksBut(old(mem), mem, old(kernelTables), kernelTables, User(flags), virt)
      ensures RightsKept(old(mem), mem, kernelRoot, Whole, virt, User(flags))
    {
      hide Pmm.ClearBits, Tree, Grows, SamePage, Index, LeafTranslation, LeafEntry, Reserved, Pmm.PageIsReserved,
           FramesConserved, SameTranslation;
      hide SpaceOk, Owned, MarksBut, RightsKept, Granted, Gives, PointersGive, User;
      ok, kernelTables := MapIn(kernelRoot, virt, phys, flags, kernelTables, Whole);
      KernelOperation(old(mem), mem, kernelRoot, old(kernelTables), kernelTables, spaces, old(pmm.Free()),
                      pmm.Free(), pmm.kernelStart, pmm.kernelEnd);
    }

    /** `vmm_unmap_page` with a null space: that page alone stops translating, and no table is freed. */
    method UnmapKernel(virt: Word) returns (ok: bool)
      requires Valid() && NoLargePageOn(mem, kernelTables, virt)
      modifies this`mem
      ensures Valid()
      ensures ok <==> Translate(old(mem), kernelRoot, virt).Some?
      ensures !ok ==> mem == old(mem)
      ensures ok ==> Remapped(old(mem), mem, kernelRoot, Whole, virt, 0)
      ensures forall s | s in spaces :: SameTranslation(old(mem), mem, s, Private)
      ensures Grows(old(mem), mem, kernelTables, kernelTables, Whole)
      ensures MarksBut(old(mem), mem, kernelTables, kernelTables, false, virt)
      ensures RightsKept(old(mem), mem, kernelRoot, Whole, virt, false)
    {
      hide Pmm.ClearBits, Tree, Grows, SamePage, Index, LeafTranslation, Reserved, Pmm.PageIsReserved, FramesConserved,
           SameTranslation;
      hide SpaceOk, Owned, MarksBut, RightsKept;
      ok := UnmapIn(kernelRoot, virt, kernelTables, Whole);
      NothingMoved(pmm.Free(), kernelTables);
      KernelOperation(old(mem), mem, kernelRoot, kernelTables, kernelTables, spaces, pmm.Free(), pmm.Free(),
                      pmm.kernelStart, pmm.kernelEnd);
    }

    /** `vmm_create_address_space`: the kernel's view outside the user area, nothing inside it; or, without two free
        frames, no change at all to the free set, to any space or to any translation. */
    method CreateAddressSpace() returns (pml4: nat)
      requires Valid()
      modifies this`mem, this`spaces, pmm, pmm.bitmap
      ensures Valid() && pmm.Surplus() == old(pmm.Surplus()) && pmm.ready == old(pmm.ready)
      ensures pml4 == 0 <==> |old(pmm.Free())| < 2
      ensures pml4 == 0 ==> pmm.Free() == old(pmm.Free()) && spaces == old(spaces)
      ensures pml4 != 0 ==>
                var root := pml4 / PAGE_SIZE;
                && pml4 == root * PAGE_SIZE && root !in old(spaces) && root in spaces
                && spaces == old(spaces)[root := spaces[root]]
                && spaces[root].Values <= old(pmm.Free()) && pmm.Free() == old(pmm.Free()) - spaces[root].Values
                && EmptyUserArea(mem, root, kernelRoot) && Open(mem, spaces[root])
                && SharesRights(mem, root, kernelRoot)
      ensures SameEverywhere(old(mem), mem, kernelRoot)
      ensures forall s | s in old(spaces) :: SameEverywhere(old(mem), mem, s)
      ensures |mem| == |old(mem)| && forall f | 0 <= f < |mem| && f !in old(pmm.Free()) :: mem[f] == old(mem)[f]
      ensures SameRights(old(mem), mem, kernelRoot, Whole)
      ensures forall s | s in old(spaces) :: SameRights(old(mem), mem, s, Private)
    {
      hide Pmm.ClearBits, Invariant, SameEverywhere, Reserved, Pmm.PageIsReserved, TableEntry, KernelOk,
           EmptyUserArea, NewTables, Pmm.FirstFrom, Store, Frame, Open, SameRights, SharesRights;
      ghost var mem0, free0 := mem, pmm.Free();
      FreeNotReserved();
      KernelParts(mem, kernelRoot, kernelTables, spaces, free0, pmm.kernelStart, pmm.kernelEnd);
      FreeFramesWritten(mem0, mem0, kernelRoot, kernelTables, spaces, free0, pmm.kernelStart, pmm.kernelEnd);
      FreeFramesRights(mem0, mem0, kernelRoot, kernelTables, spaces, free0, pmm.kernelStart, pmm.kernelEnd);
      var newPml4 := pmm.AllocPage();
      if newPml4 == 0 {
        return 0;
      }
      var root := newPml4 / PAGE_SIZE;
      FillRoot(root);
      ghost var spaces0 := spaces;
      pml4 := FinishSpace(root, mem0, free0);
      FreeFramesRights(mem0, mem, kernelRoot, kernelTables, spaces0, free0, pmm.kernelStart, pmm.kernelEnd);
    }

    /** The rest, with the root in place: the private table, or the root given back. */
    method FinishSpace(root: nat, ghost mem0: Memory, ghost free0: set<nat>) returns (pml4: nat)
      requires pmm.Valid() && pmm.ready && pmm.Free() == free0 - {root} && root in free0 && 0 < root < |mem0|
      requires Invariant(mem0, kernelRoot, kernelTables, spaces, free0, pmm.kernelStart, pmm.kernelEnd)
      requires forall f | f in free0 :: f < Pmm.MAX_PAGES && !Reserved(f, pmm.kernelStart, pmm.kernelEnd)
      requires kernelRoot < |mem0| && mem == mem0[root := mem0[kernelRoot]]
      modifies this`mem, this`spaces, pmm, pmm.bitmap
      ensures Valid() && pmm.Surplus() == old(pmm.Surplus()) && pmm.ready
      ensures pml4 == 0 <==> |free0| < 2
      ensures pml4 == 0 ==> pmm.Free() == free0 && spaces == old(spaces)
      ensures pml4 != 0 ==>
                && pml4 == root * PAGE_SIZE && root !in old(spaces) && root in spaces
                && spaces == old(spaces)[root := spaces[root]]
                && spaces[root].Values <= free0 && pmm.Free() == free0 - spaces[root].Values
                && EmptyUserArea(mem, root, kernelRoot) && Open(mem, spaces[root])
                && SharesRights(mem, root, kernelRoot)
      ensures SameEverywhere(mem0, mem, kernelRoot) && forall s | s in old(spaces) :: SameEverywhere(mem0, mem, s)
      ensures |mem| == |mem0| && forall f | 0 <= f < |mem| && f !in free0 :: mem[f] == mem0[f]
    {
      hide Pmm.ClearBits, Invariant, SameEverywhere, Reserved, Pmm.PageIsReserved, TableEntry, KernelOk,
           EmptyUserArea, NewTables, Pmm.FirstFrom, Store, Frame, Open, SharesRights;
      KernelParts(mem0, kernelRoot, kernelTables, spaces, free0, pmm.kernelStart, pmm.kernelEnd);
      var newPdpt := pmm.AllocPage();
      if newPdpt == 0 {
        OneFrame(free0, root);
        GiveBack(root);
        FreeFramesWritten(mem0, mem, kernelRoot, kernelTables, spaces, free0, pmm.kernelStart, pmm.kernelEnd);
        assert pmm.Free() == free0;
        return 0;
      }
      var pdpt := newPdpt / PAGE_SIZE;
      TwoFrames(free0, root, pdpt);
      assert pmm.Free() == free0 - {root, pdpt};
      AttachSpace(root, pdpt, mem0, free0);
      return root * PAGE_SIZE;
    }

    /** The private table below the root. */
    method AttachSpace(root: nat, pdpt: nat, ghost mem0: Memory, ghost free0: set<nat>)
      requires pmm.Valid() && pmm.ready && pmm.Free() == free0 - {root, pdpt}
      requires Invariant(mem0, kernelRoot, kernelTables, spaces, free0, pmm.kernelStart, pmm.kernelEnd)
      requires forall f | f in free0 :: f < Pmm.MAX_PAGES && !Reserved(f, pmm.kernelStart, pmm.kernelEnd)
      requires root in free0 && pdpt in free0 && root != pdpt && root < |mem0| && pdpt < |mem0|
      requires kernelRoot < |mem0| && mem == mem0[root := mem0[kernelRoot]]
      modifies this`mem, this`spaces
      ensures Valid() && root !in old(spaces) && root in spaces && spaces == old(spaces)[root := spaces[root]]
      ensures spaces[root].Values == {root, pdpt} && EmptyUserArea(mem, root, kernelRoot) && Open(mem, spaces[root])
      ensures SharesRights(mem, root, kernelRoot)
      ensures SameEverywhere(mem0, mem, kernelRoot) && forall s | s in old(spaces) :: SameEverywhere(mem0, mem, s)
      ensures |mem| == |mem0| && forall f | 0 <= f < |mem| && f !in free0 :: mem[f] == mem0[f]
    {
      hide Pmm.ClearBits, Invariant, SameEverywhere, Reserved, Pmm.PageIsReserved, TableEntry, KernelOk,
           EmptyUserArea, NewTables, Store, Frame, Open, SharesRights;
      KernelParts(mem0, kernelRoot, kernelTables, spaces, free0, pmm.kernelStart, pmm.kernelEnd);
      FillPdpt(root, pdpt);
      CreationDone(mem0, mem, kernelRoot, kernelTables, spaces, free0, pmm.kernelStart, pmm.kernelEnd, root, pdpt);
      CreatedOnly(mem0, mem, kernelRoot, root, pdpt);
      CreatedOpen(mem, root, pdpt);
      spaces := spaces[root := NewTables(root, pdpt)];
    }

    method GiveBack(f: nat)
      requires pmm.Valid() && pmm.ready && f < Pmm.MAX_PAGES && !Reserved(f, pmm.kernelStart, pmm.kernelEnd)
      modifies pmm, pmm.bitmap
      ensures pmm.Valid() && pmm.Surplus() == old(pmm.Surplus()) && pmm.ready
      ensures pmm.Free() == old(pmm.Free()) + {f}
    {
      hide Pmm.ClearBits, Reserved, Pmm.PageIsReserved;
      FreeableFrame(pmm, f);
      pmm.FreePage(f * PAGE_SIZE);
    }

    /** Zero the new root, then copy the kernel's root into it. */
    method FillRoot(root: nat)
      requires root < |mem| && kernelRoot < |mem| && root != kernelRoot
      modifies this`mem
      ensures mem == old(mem)[root := old(mem)[kernelRoot]]
    {
      ZeroFrame(root);
      CopyEntries(root, kernelRoot, ENTRIES);
      assert mem[root] == old(mem)[kernelRoot];
    }

    /** Zero the private second-level table, copy the kernel's entries below 4 GiB, and hang it into the root. */
    method FillPdpt(root: nat, pdpt: nat)
      requires root < |mem| && pdpt < |mem| && kernelRoot < |mem| && Frame(mem[kernelRoot][0]) < |mem|
      requires root != pdpt && pdpt != kernelRoot && pdpt != Frame(mem[kernelRoot][0]) && pdpt < Pmm.MAX_PAGES
      modifies this`mem
      ensures mem == Store(old(mem)[pdpt := old(mem)[Frame(old(mem)[kernelRoot][0])][..4] + ZeroTable()[4..]], root, 0,
                           TableEntry(pdpt, 4))
      ensures mem[root][0] == TableEntry(pdpt, 4)
    {
      hide Frame, TableEntry;
      ZeroFrame(pdpt);
      var oldPdpt := Frame(Load(mem, kernelRoot, 0));
      CopyEntries(pdpt, oldPdpt, 4);
      mem := Store(mem, root, 0, TableEntry(pdpt, 4));
      assert mem[root][0] == TableEntry(pdpt, 4);
    }

    /** `vmm_destroy_address_space`: a null pointer and the kernel's root are ignored; otherwise exactly the space's own
        tables become free, and neither a mapped frame nor a kernel table does. */
    method DestroyAddressSpace(pml4: nat)
      requires Valid()
      requires pml4 == 0 || pml4 == kernelRoot * PAGE_SIZE || (pml4 % PAGE_SIZE == 0 && pml4 / PAGE_SIZE in spaces)
      modifies this`spaces, pmm, pmm.bitmap
      ensures Valid() && pmm.Surplus() == old(pmm.Surplus()) && pmm.ready == old(pmm.ready)
      ensures pml4 == 0 || pml4 == kernelRoot * PAGE_SIZE ==> pmm.Free() == old(pmm.Free()) && spaces == old(spaces)
      ensures pml4 != 0 && pml4 != kernelRoot * PAGE_SIZE ==>
                var root := pml4 / PAGE_SIZE;
                && root in old(spaces) && spaces == old(spaces) - {root}
                && pmm.Free() == old(pmm.Free()) + old(spaces)[root].Values
    {
      hide Pmm.ClearBits, Invariant, Pmm.PageIsReserved;
      if pml4 == 0 || pml4 == kernelRoot * PAGE_SIZE {
        return;
      }
      var root := pml4 / PAGE_SIZE;
      DestroyOperation(mem, kernelRoot, kernelTables, spaces, pmm.Free(), pmm.kernelStart, pmm.kernelEnd, root);
      FreeSpace(root);
      spaces := spaces - {root};
    }

    method FreeSpace(root: nat)
      requires Valid() && root in spaces
      modifies pmm, pmm.bitmap
      ensures pmm.Valid() && pmm.Surplus() == old(pmm.Surplus()) && pmm.ready == old(pmm.ready)
      ensures pmm.Free() == old(pmm.Free()) + spaces[root].Values
    {
      hide Pmm.ClearBits, Invariant, Shape, Reserved, Pmm.PageIsReserved, Present, Frame, SpaceOk, Freed, Freeable;
      ghost var tab := spaces[root];
      OwnTables(mem, kernelRoot, kernelTables, spaces, pmm.Free(), pmm.kernelStart, pmm.kernelEnd, root);
      FreedAll(root, tab);
      if Present(Load(mem, root, 0)) {
        var pdpt := Frame(Load(mem, root, 0));
        FreeDirectories(pdpt, root, tab);
        FreeTable(pdpt, tab, Sub(Root, 0));
      }
      FreeTable(root, tab, Root);
    }

    // ---------- runs ----------

    /** One request inside a space; a map outside the user area is not made. */
    method Apply(root: nat, op: PageOp) returns (ok: bool)
      requires Valid() && root in spaces
      modifies this`mem, this`spaces, pmm, pmm.bitmap
      ensures Valid() && spaces.Keys == old(spaces).Keys
      ensures forall s | s in spaces && s != root :: spaces[s] == old(spaces)[s]
      ensures pmm.Surplus() == old(pmm.Surplus()) && pmm.ready == old(pmm.ready)
      ensures FramesConserved(old(pmm.Free()), pmm.Free(), old(spaces)[root], spaces[root])
      ensures SameEverywhere(old(mem), mem, kernelRoot)
      ensures forall s | s in spaces && s != root :: SameEverywhere(old(mem), mem, s)
      ensures KernelKept(old(mem), mem, kernelTables)
      ensures Effect(old(mem), mem, root, old(spaces)[root], spaces[root], op, ok)
    {
      hide Pmm.ClearBits, Invariant, InRegion, SameEverywhere, RemappedUser, FramesConserved, Pmm.PageIsReserved,
           KernelKept, MarksBut, RightsKept, Granted, PageGives, Gives, PointersGive, User, Open, Effect, SameRights,
           Missing, Entry, SpaceOk;
      ok := false;
      FreeApart(mem, kernelRoot, kernelTables, spaces, pmm.Free(), pmm.kernelStart, pmm.kernelEnd);
      KernelNotWritten(mem, mem, kernelTables, pmm.Free());
      InvariantParts(mem, kernelRoot, kernelTables, spaces, pmm.Free(), pmm.kernelStart, pmm.kernelEnd, root);
      NothingMoved(pmm.Free(), spaces[root]);
      Unchanged(mem);
      NoEffect(mem, root, spaces[root], op);
      if InRegion(Private, op.virt) {
        if op.MapPage? {
          ok := MapUser(root, op.virt, op.phys, op.flags);
          if ok {
            MapEffect(old(mem), mem, root, old(spaces)[root], spaces[root], op);
          } else {
            FailedMap(old(mem), mem, root, old(spaces)[root], spaces[root], kernelTables, op);
          }
        } else {
          ok := UnmapUser(root, op.virt);
          if ok {
            UnmapEffect(old(mem), mem, root, spaces[root], op);
          }
        }
        FreeApart(mem, kernelRoot, kernelTables, spaces, pmm.Free(), pmm.kernelStart, pmm.kernelEnd);
        KernelNotWritten(old(mem), mem, kernelTables, spaces[root].Values);
      }
    }

    lemma NotKernelRoot(root: nat)
      requires Valid() && root in spaces
      ensures root != kernelRoot && root != 0
      ensures pmm.bitmap.Length == Pmm.BITMAP_SIZE && spaces[root].Values !! pmm.Free()
    {
      hide Pmm.ClearBits, Invariant, Pmm.PageIsReserved;
      NotKernel(mem, kernelRoot, kernelTables, spaces, pmm.Free(), pmm.kernelStart, pmm.kernelEnd, root);
    }

    lemma OwnFrames(root: nat)
      requires Valid() && root in spaces
      ensures pmm.bitmap.Length == Pmm.BITMAP_SIZE && spaces[root].Values !! pmm.Free()
    {
      hide Pmm.ClearBits, Invariant, Pmm.PageIsReserved;
      InvariantParts(mem, kernelRoot, kernelTables, spaces, pmm.Free(), pmm.kernelStart, pmm.kernelEnd, root);
    }

    /** One more request in a space that shows those before. */
    method ApplyShown(root: nat, op: PageOp, ghost ops: seq<PageOp>, ghost oks: seq<bool>)
      returns (ghost oks': seq<bool>)
      requires Valid() && root in spaces && |oks| == |ops| && Shows(mem, root, spaces[root], ops, oks)
      modifies this`mem, this`spaces, pmm, pmm.bitmap
      ensures Valid() && spaces.Keys == old(spaces).Keys
      ensures |oks'| == |ops| + 1 && Shows(mem, root, spaces[root], ops + [op], oks')
      ensures SameOutside(old(mem), mem, root)
      ensures forall s | s in spaces && s != root :: spaces[s] == old(spaces)[s]
      ensures pmm.Surplus() == old(pmm.Surplus())
      ensures FramesConserved(old(pmm.Free()), pmm.Free(), old(spaces)[root], spaces[root])
      ensures SameEverywhere(old(mem), mem, kernelRoot)
      ensures forall s | s in spaces && s != root :: SameEverywhere(old(mem), mem, s)
    {
      hide Pmm.ClearBits, Invariant, Pmm.PageIsReserved, SameEverywhere, FramesConserved, Shows, Effect, SameOutside,
           KernelKept;
      var ok := Apply(root, op);
      EffectShows(old(mem), mem, root, old(spaces)[root], spaces[root], ops, oks, op, ok);
      oks' := oks + [ok];
    }

    /** Any requests inside a space that shows nothing yet: it then shows for every page of the user area the last
        successful request for it. */
    method ApplyAll(root: nat, ops: seq<PageOp>) returns (ghost oks: seq<bool>)
      requires Valid() && root in spaces && Shows(mem, root, spaces[root], [], [])
      modifies this`mem, this`spaces, pmm, pmm.bitmap
      ensures Valid() && spaces.Keys == old(spaces).Keys && spaces - {root} == old(spaces) - {root}
      ensures |oks| == |ops| && Shows(mem, root, spaces[root], ops, oks) && SameOutside(old(mem), mem, root)
      ensures pmm.Surplus() == old(pmm.Surplus())
      ensures FramesConserved(old(pmm.Free()), pmm.Free(), old(spaces)[root], spaces[root])
      ensures SameEverywhere(old(mem), mem, kernelRoot)
      ensures forall s | s in spaces && s != root :: SameEverywhere(old(mem), mem, s)
    {
      hide Pmm.ClearBits, Invariant, Pmm.PageIsReserved, SameEverywhere, FramesConserved, Shows, SameOutside,
           Pmm.PageAllocator.Surplus, Pmm.PageAllocator.Valid, Valid;
      OwnFrames(root);
      NothingMoved(pmm.Free(), spaces[root]);
      Unchanged(mem);
      oks := [];
      assert ops[..0] == [];
      NothingOutside(mem, root);
      for i := 0 to |ops|
        invariant Valid() && spaces.Keys == old(spaces).Keys && spaces - {root} == old(spaces) - {root}
        invariant |oks| == i && Shows(mem, root, spaces[root], ops[..i], oks) && SameOutside(old(mem), mem, root)
        invariant pmm.Surplus() == old(pmm.Surplus())
        invariant FramesConserved(old(pmm.Free()), pmm.Free(), old(spaces)[root], spaces[root])
        invariant SameEverywhere(old(mem), mem, kernelRoot)
        invariant forall s | s in spaces && s != root :: SameEverywhere(old(mem), mem, s)
      {
        ghost var before, mem0, free0 := spaces, mem, pmm.Free();
        assert ops[..i + 1] == ops[..i] + [ops[i]];
        oks := ApplyShown(root, ops[i], ops[..i], oks);
        OutsideTwice(old(mem), mem0, mem, root);
        SameElsewhere(before, spaces, root);
        ConservedTwice(old(pmm.Free()), free0, pmm.Free(), old(spaces)[root], before[root], spaces[root]);
        SameTwice(old(mem), mem0, mem);
      }
      assert ops[..|ops|] == ops;
    }

    /** Create a space and make any requests inside it: the space shows exactly the requests inside the user area, and
        the kernel as it was outside. */
    method Populate(ops: seq<PageOp>) returns (pml4: nat, ghost oks: seq<bool>)
      requires Valid()
      modifies this`mem, this`spaces, pmm, pmm.bitmap
      ensures Valid() && pmm.Surplus() == old(pmm.Surplus()) && |oks| == |ops|
      ensures pml4 == 0 <==> |old(pmm.Free())| < 2
      ensures pml4 == 0 ==> pmm.Free() == old(pmm.Free()) && spaces == old(spaces)
      ensures pml4 != 0 ==>
                var root := pml4 / PAGE_SIZE;
                && pml4 == root * PAGE_SIZE && root !in old(spaces) && root in spaces
                && spaces == old(spaces)[root := spaces[root]] && pmm.Free() !! spaces[root].Values
                && pmm.Free() + spaces[root].Values == old(pmm.Free())
                && Shows(mem, root, spaces[root], ops, oks) && ShowsKernel(old(mem), mem, root, kernelRoot)
      ensures SameEverywhere(old(mem), mem, kernelRoot)
      ensures forall s | s in old(spaces) :: SameEverywhere(old(mem), mem, s)
    {
      hide Pmm.ClearBits, Invariant, EmptyUserArea, Pmm.PageIsReserved, SameEverywhere, FramesConserved, Shows,
           SameOutside, ShowsKernel, Open, SameRights, Pmm.PageAllocator.Surplus;
      oks := seq(|ops|, _ => false);
      pml4 := CreateAddressSpace();
      if pml4 == 0 {
        return;
      }
      var root := pml4 / PAGE_SIZE;
      ghost var mem1, free1, tab1, spaces1 := mem, pmm.Free(), spaces[root], spaces;
      EmptyShows(mem, root, kernelRoot, spaces[root]);
      oks := ApplyAll(root, ops);
      OutsideKernel(old(mem), mem1, mem, root, kernelRoot);
      SameTwice(old(mem), mem1, mem);
      AllReturned(old(pmm.Free()), free1, pmm.Free(), tab1, spaces[root]);
      BesidesRoot(old(spaces), spaces1, spaces, root);
      InvariantParts(mem, kernelRoot, kernelTables, spaces, pmm.Free(), pmm.kernelStart, pmm.kernelEnd, root);
    }

    /** Create a space, make any requests inside it, destroy it: the free set and the counter are what they were,
        and no other space and not the kernel has seen anything. */
    method Lifetime(ops: seq<PageOp>)
      requires Valid()
      modifies this`mem, this`spaces, pmm, pmm.bitmap
      ensures Valid() && spaces == old(spaces)
      ensures pmm.Free() == old(pmm.Free()) && pmm.freePages == old(pmm.freePages)
      ensures SameEverywhere(old(mem), mem, kernelRoot)
      ensures forall s | s in spaces :: SameEverywhere(old(mem), mem, s)
    {
      hide Pmm.ClearBits, Invariant, EmptyUserArea, Pmm.PageIsReserved, SameEverywhere, FramesConserved, Shows,
           ShowsKernel;
      var pml4;
      ghost var oks;
      pml4, oks := Populate(ops);
      if pml4 == 0 {
        return;
      }
      var root := pml4 / PAGE_SIZE;
      OnlyAdded(old(spaces), spaces, root);
      NotKernel(mem, kernelRoot, kernelTables, spaces, pmm.Free(), pmm.kernelStart, pmm.kernelEnd, root);
      DestroyAddressSpace(pml4);
    }

    /** Any run of requests, in spaces that it creates and in the kernel, keeps the ownership invariant and loses no
        frame. It changes what the kernel sees only where a request in the kernel is for that page, and nothing in the
        user areas of the spaces that were there before. */
    method Run(ops: seq<SpaceOp>) returns (handles: seq<nat>)
      requires Valid() && OffLargePages(mem, kernelTables, ops)
      modifies this`mem, this`spaces, this`kernelTables, pmm, pmm.bitmap
      ensures Valid() && Held(handles, spaces) && pmm.Surplus() == old(pmm.Surplus())
      ensures Frames() == old(Frames())
      ensures pmm.Free() !! AllTables(spaces) && pmm.Free() !! kernelTables.Values
      ensures AllTables(spaces) !! kernelTables.Values
      ensures KernelSees(old(mem), mem, kernelRoot, ops)
      ensures forall s | s in old(spaces) ::
                s in spaces && spaces[s] == old(spaces)[s] && SameTranslation(old(mem), mem, s, Private)
    {
      hide Pmm.ClearBits, Invariant, Pmm.PageIsReserved, Translate, AllTables, Frames, Confines, NoLargePageOn;
      handles := [];
      FreeApart(mem, kernelRoot, kernelTables, spaces, pmm.Free(), pmm.kernelStart, pmm.kernelEnd);
      NothingConfined(mem, kernelRoot, kernelTables, spaces);
      assert ops[..0] == [];
      for i := 0 to |ops|
        invariant Valid() && Held(handles, spaces) && pmm.Surplus() == old(pmm.Surplus()) && Frames() == old(Frames())
        invariant Confines(old(mem), mem, kernelRoot, old(kernelTables), kernelTables, old(spaces), spaces, [], handles,
                           ops[..i])
      {
        ghost var m, k, t, h := mem, kernelTables, spaces, handles;
        StillClear(old(mem), mem, kernelRoot, old(kernelTables), kernelTables, old(spaces), spaces, handles, ops, i);
        handles := RunOne(ops[i], handles);
        ConfinesTwice(old(mem), m, mem, kernelRoot, old(kernelTables), k, kernelTables, old(spaces), t, spaces, [], h,
                      handles, ops[..i], ops[i]);
        assert ops[..i] + [ops[i]] == ops[..i + 1];
      }
      assert ops[..|ops|] == ops;
      ConfinesAll(old(mem), mem, kernelRoot, old(kernelTables), kernelTables, old(spaces), spaces, handles, ops);
      TablesNotFree(mem, kernelRoot, kernelTables, spaces, pmm.Free(), pmm.kernelStart, pmm.kernelEnd);
      FreeApart(mem, kernelRoot, kernelTables, spaces, pmm.Free(), pmm.kernelStart, pmm.kernelEnd);
      AllTablesApart(spaces, kernelTables.Values);
    }

    /** All frames that are free or hold a table. */
    ghost function Frames(): set<nat>
      requires Valid()
      reads this, pmm, pmm.bitmap
    {
      pmm.Free() + AllTables(spaces) + kernelTables.Values
    }

    method RunOne(op: SpaceOp, handles: seq<nat>) returns (handles': seq<nat>)
      requires Valid() && Held(handles, spaces)
      requires op.InKernel? ==> NoLargePageOn(mem, kernelTables, op.op.virt)
      modifies this`mem, this`spaces, this`kernelTables, pmm, pmm.bitmap
      ensures Valid() && Held(handles', spaces) && pmm.Surplus() == old(pmm.Surplus()) && Frames() == old(Frames())
      ensures Confines(old(mem), mem, kernelRoot, old(kernelTables), kernelTables, old(spaces), spaces, handles,
                       handles', [op])
    {
      hide Pmm.ClearBits, Invariant, Pmm.PageIsReserved, SameEverywhere, AllTables, Held, OthersKept, StaysClear,
           KernelSees, KernelKept, NoLargePageOn;
      match op {
        case Create =>
          handles' := RunCreate(handles);
          KernelApart(old(mem), mem, kernelRoot, kernelTables, op);
        case Destroy(h) =>
          handles' := RunDestroy(h, handles);
          KernelApart(old(mem), mem, kernelRoot, kernelTables, op);
        case InSpace(h, o) =>
          RunInSpace(h, o, handles);
          handles' := handles;
          KernelApart(old(mem), mem, kernelRoot, kernelTables, op);
        case InKernel(o) =>
          RunInKernel(o, handles);
          handles' := handles;
      }
    }

    method RunCreate(handles: seq<nat>) returns (handles': seq<nat>)
      requires Valid() && Held(handles, spaces)
      modifies this`mem, this`spaces, pmm, pmm.bitmap
      ensures Valid() && Held(handles', spaces) && pmm.Surplus() == old(pmm.Surplus())
      ensures pmm.Free() + AllTables(spaces) == old(pmm.Free() + AllTables(spaces))
      ensures SameEverywhere(old(mem), mem, kernelRoot) && KernelKept(old(mem), mem, kernelTables)
      ensures OthersKept(old(mem), mem, old(spaces), spaces, handles, handles')
    {
      hide Pmm.ClearBits, Invariant, Pmm.PageIsReserved, SameEverywhere, AllTables, EmptyUserArea, Held, OthersKept,
           KernelKept;
      FreeApart(mem, kernelRoot, kernelTables, spaces, pmm.Free(), pmm.kernelStart, pmm.kernelEnd);
      var pml4 := CreateAddressSpace();
      KernelNotWritten(old(mem), mem, kernelTables, old(pmm.Free()));
      if pml4 == 0 {
        OthersSame(old(mem), mem, old(spaces), handles);
        return handles;
      }
      HeldNew(handles, old(spaces), spaces, pml4, pml4 / PAGE_SIZE, old(pmm.Free()));
      OthersAndNew(old(mem), mem, old(spaces), spaces, handles, pml4);
      return handles + [pml4];
    }

    method RunDestroy(h: nat, handles: seq<nat>) returns (handles': seq<nat>)
      requires Valid() && Held(handles, spaces)
      modifies this`spaces, pmm, pmm.bitmap
      ensures Valid() && Held(handles', spaces) && pmm.Surplus() == old(pmm.Surplus())
      ensures pmm.Free() + AllTables(spaces) == old(pmm.Free() + AllTables(spaces))
      ensures SameEverywhere(mem, mem, kernelRoot) && KernelKept(mem, mem, kernelTables)
      ensures OthersKept(mem, mem, old(spaces), spaces, handles, handles')
    {
      hide Pmm.ClearBits, Invariant, Pmm.PageIsReserved, AllTables, Held, HeldOne, OthersKept, KernelKept,
           SameEverywhere;
      FreeApart(mem, kernelRoot, kernelTables, spaces, pmm.Free(), pmm.kernelStart, pmm.kernelEnd);
      KernelNotWritten(mem, mem, kernelTables, pmm.Free());
      Unchanged(mem);
      if h >= |handles| {
        OthersSame(mem, mem, spaces, handles);
        return handles;
      }
      HeldLess(handles, spaces, h);
      DestroyHeld(handles[h]);
      OthersWithout(mem, old(spaces), handles, h);
      return handles[..h] + handles[h + 1..];
    }

    method DestroyHeld(pml4: nat)
      requires Valid() && HeldOne(pml4, spaces)
      modifies this`spaces, pmm, pmm.bitmap
      ensures Valid() && spaces == old(spaces) - {pml4 / PAGE_SIZE} && pmm.Surplus() == old(pmm.Surplus())
      ensures pmm.Free() + AllTables(spaces) == old(pmm.Free() + AllTables(spaces))
    {
      hide Pmm.ClearBits, Invariant, Pmm.PageIsReserved, AllTables, Pmm.PageAllocator.Surplus, Valid,
           Pmm.PageAllocator.Valid, Pmm.PageAllocator.Free;
      NotKernelRoot(pml4 / PAGE_SIZE);
      AllTablesWithout(spaces, pml4 / PAGE_SIZE);
      DestroyAddressSpace(pml4);
    }

    method RunInSpace(h: nat, op: PageOp, handles: seq<nat>)
      requires Valid() && Held(handles, spaces)
      modifies this`mem, this`spaces, pmm, pmm.bitmap
      ensures Valid() && Held(handles, spaces) && pmm.Surplus() == old(pmm.Surplus())
      ensures pmm.Free() + AllTables(spaces) == old(pmm.Free() + AllTables(spaces))
      ensures SameEverywhere(old(mem), mem, kernelRoot) && KernelKept(old(mem), mem, kernelTables)
      ensures OthersKept(old(mem), mem, old(spaces), spaces, handles, handles)
    {
      hide Pmm.ClearBits, Invariant, Pmm.PageIsReserved, SameEverywhere, AllTables, OthersKept, KernelKept;
      FreeApart(mem, kernelRoot, kernelTables, spaces, pmm.Free(), pmm.kernelStart, pmm.kernelEnd);
      KernelNotWritten(mem, mem, kernelTables, pmm.Free());
      Unchanged(mem);
      if h < |handles| {
        HeldLess(handles, spaces, h);
        var root := handles[h] / PAGE_SIZE;
        ApplyHeld(root, op);
        OthersInSpace(old(mem), mem, old(spaces), spaces, handles, h);
      } else {
        OthersSame(mem, mem, spaces, handles);
      }
    }

    method ApplyHeld(root: nat, op: PageOp)
      requires Valid() && root in spaces
      modifies this`mem, this`spaces, pmm, pmm.bitmap
      ensures Valid() && spaces.Keys == old(spaces).Keys && pmm.Surplus() == old(pmm.Surplus())
      ensures forall s | s in spaces && s != root :: spaces[s] == old(spaces)[s]
      ensures pmm.Free() + AllTables(spaces) == old(pmm.Free() + AllTables(spaces))
      ensures SameEverywhere(old(mem), mem, kernelRoot) && KernelKept(old(mem), mem, kernelTables)
      ensures forall s | s in spaces && s != root :: SameEverywhere(old(mem), mem, s)
    {
      hide Pmm.ClearBits, Invariant, Pmm.PageIsReserved, SameEverywhere, AllTables, KernelKept;
      AllTablesWithout(spaces, root);
      var ok := Apply(root, op);
      SameElsewhere(old(spaces), spaces, root);
      AllTablesWithout(spaces, root);
    }

    /** A request with a null space. */
    method RunInKernel(op: PageOp, handles: seq<nat>)
      requires Valid() && Held(handles, spaces) && NoLargePageOn(mem, kernelTables, op.virt)
      modifies this`mem, this`kernelTables, pmm, pmm.bitmap
      ensures Valid() && Held(handles, spaces) && pmm.Surplus() == old(pmm.Surplus()) && Frames() == old(Frames())
      ensures Confines(old(mem), mem, kernelRoot, old(kernelTables), kernelTables, spaces, spaces, handles, handles,
                       [InKernel(op)])
    {
      hide Pmm.ClearBits, Tree, Pmm.PageIsReserved, AllTables, Held, OthersKept, StaysClear, KernelSees, NoLargePageOn,
           Remapped, SameTranslation, Grows, SpaceOk, Owned, LeafEntry, FramesConserved, MarksBut, RightsKept, Granted,
           Gives, PointersGive, Entry, User, Pmm.PageAllocator.Surplus;
      ghost var w: Word, free, tab := 0, pmm.Free(), kernelTables;
      if op.MapPage? {
        var ok := MapKernel(op.virt, op.phys, op.flags);
        w := LeafEntry(op.phys, op.flags);
        FramesMoved(free, pmm.Free(), AllTables(spaces), tab, kernelTables);
      } else {
        var ok := UnmapKernel(op.virt);
        if !ok { SameAsBefore(mem, kernelRoot); }
      }
      TreeBounded(mem, kernelRoot, kernelTables, Whole);
      KernelGrown(old(mem), mem, kernelRoot, old(kernelTables), kernelTables, InKernel(op), w);
      OthersBesideKernel(old(mem), mem, spaces, handles);
    }

    /** The outer loop over the entries above 4 GiB. */
    method FreeDirectories(pdpt: nat, ghost root: nat, ghost tab: Tables)
      requires pmm.Valid() && pmm.ready && SpaceOk(mem, root, tab, kernelTables)
      requires Freeable(tab) && Shape(tab, root, Private) && Sub(Root, 0) in tab && pdpt == tab[Sub(Root, 0)]
      modifies pmm, pmm.bitmap
      ensures pmm.Valid() && pmm.Surplus() == old(pmm.Surplus()) && pmm.ready
      ensures pmm.Free() == old(pmm.Free()) + Freed(tab, ENTRIES, 0)
    {
      hide Pmm.ClearBits, Shape, Reserved, Pmm.PageIsReserved, Present, Frame, Freed, SpaceOk, Freeable;
      FreedStart(root, tab);
      for i := 4 to ENTRIES
        invariant pmm.Valid() && pmm.Surplus() == old(pmm.Surplus()) && pmm.ready
        invariant pmm.Free() == old(pmm.Free()) + Freed(tab, i, 0)
      {
        UserEntry(mem, root, tab, kernelTables, Sub(Root, 0), i);
        if Present(Load(mem, pdpt, i)) {
          FreeDirectory(Frame(Load(mem, pdpt, i)), root, tab, i, old(pmm.Free()));
        }
        FreedRow(root, tab, i);
      }
    }

    /** The inner loop: the page tables below one directory, then the directory itself. */
    method FreeDirectory(pd: nat, ghost root: nat, ghost tab: Tables, i: nat, ghost free0: set<nat>)
      requires pmm.Valid() && pmm.ready && 4 <= i < ENTRIES && SpaceOk(mem, root, tab, kernelTables)
      requires Freeable(tab) && Shape(tab, root, Private) && Sub(Sub(Root, 0), i) in tab
      requires pd == tab[Sub(Sub(Root, 0), i)]
      requires pmm.Free() == free0 + Freed(tab, i, 0)
      modifies pmm, pmm.bitmap
      ensures pmm.Valid() && pmm.Surplus() == old(pmm.Surplus()) && pmm.ready
      ensures pmm.Free() == free0 + Freed(tab, i, ENTRIES) + {pd}
    {
      hide Pmm.ClearBits, Shape, Reserved, Pmm.PageIsReserved, Present, Frame, Freed, SpaceOk, Freeable;
      for j := 0 to ENTRIES
        invariant pmm.Valid() && pmm.Surplus() == old(pmm.Surplus()) && pmm.ready
        invariant pmm.Free() == free0 + Freed(tab, i, j)
      {
        UserEntry(mem, root, tab, kernelTables, Sub(Sub(Root, 0), i), j);
        if Present(Load(mem, pd, j)) {
          FreeTable(Frame(Load(mem, pd, j)), tab, Sub(Sub(Sub(Root, 0), i), j));
        }
        FreedEntry(root, tab, i, j);
      }
      FreeTable(pd, tab, Sub(Sub(Root, 0), i));
    }

    /** `pmm_free_page` on a table of the space. */
    method FreeTable(f: nat, ghost tab: Tables, ghost p: Pos)
      requires pmm.Valid() && pmm.ready && Freeable(tab) && p in tab && tab[p] == f
      modifies pmm, pmm.bitmap
      ensures pmm.Valid() && pmm.Surplus() == old(pmm.Surplus()) && pmm.ready
      ensures pmm.Free() == old(pmm.Free()) + {f}
    {
      hide Reserved;
      assert f in tab.Values;
      GiveBack(f);
    }

    ghost predicate Freeable(tab: Tables) {
      forall f | f in tab.Values :: f < Pmm.MAX_PAGES && !Reserved(f, pmm.kernelStart, pmm.kernelEnd)
    }

    lemma OwnTables(mem: Memory, kernelRoot: nat, kernelTables: Tables, spaces: map<nat, Tables>, free: set<nat>,
                    ks: nat, ke: nat, s: nat)
      requires Invariant(mem, kernelRoot, kernelTables, spaces, free, ks, ke) && s in spaces
      requires ks == pmm.kernelStart && ke == pmm.kernelEnd
      ensures SpaceOk(mem, s, spaces[s], kernelTables) && Freeable(spaces[s]) && Shape(spaces[s], s, Private)
      ensures Root in spaces[s] && spaces[s][Root] == s < |mem| && Sub(Root, 0) in spaces[s]
      ensures Present(mem[s][0]) && Frame(mem[s][0]) == spaces[s][Sub(Root, 0)] < |mem|
    {
      hide Reserved;
      assert Owned(spaces[s], kernelTables, free, ks, ke);
      assert Linked(mem, spaces[s], Root, 0);
    }

    lemma FreeNotReserved()
      requires pmm.Valid()
      ensures forall f | f in pmm.Free() :: f < Pmm.MAX_PAGES && !Reserved(f, pmm.kernelStart, pmm.kernelEnd)
    {
      hide Pmm.PageIsReserved;
      assert forall f | f in pmm.Free() :: !pmm.Reserved(f);
    }

    /** The three levels above the page table. */
    method WalkDown(root: nat, virt: Word, flags: Word, ghost tab: Tables, ghost r: Region)
      returns (ok: bool, pt: nat, ghost tab': Tables)
      requires pmm.Valid() && |mem| >= Pmm.MAX_PAGES && Tree(mem, root, tab, r) && tab.Values !! pmm.Free()
      requires InRegion(r, virt) && NoLargePageOn(mem, tab, virt)
      modifies this`mem, pmm, pmm.bitmap
      ensures pmm.Valid() && pmm.ready == old(pmm.ready) && pmm.Surplus() == old(pmm.Surplus()) && |mem| == |old(mem)|
      ensures Step(old(mem), mem, old(pmm.Free()), pmm.Free(), tab, tab', root, r)
      ensures ok ==> PathTo(virt, 3) in tab' && pt == tab'[PathTo(virt, 3)]
      ensures !ok ==> pmm.Free() == {}
      ensures ok <==> Missing(tab, virt) <= |old(pmm.Free())|
      ensures Marks(old(mem), mem, tab, tab', User(flags))
      ensures ok && User(flags) ==> PointersGive(mem, tab', virt, UserMode)
    {
      hide Pmm.ClearBits, Tree, LargePage, Index, InRegion, NoLargePageOn, Covers, Step, Marks, Gives, Entry, User,
           PointersGive;
      ghost var path := PathNames(virt);
      PathCovered(r, virt, 0);
      PathCovered(r, virt, 1);
      PathCovered(r, virt, 2);
      RootOf(mem, root, tab, r);
      ghost var m0, f0 := mem, pmm.Free();
      ok, pt, tab' := EnsureTable(root, Index(0, virt), flags, root, tab, r, Root);
      StepClear(m0, mem, f0, pmm.Free(), tab, tab', root, r, virt, 1);
      if ok {
        ghost var m1, f1, t1 := mem, pmm.Free(), tab';
        ok, pt, tab' := EnsureTable(pt, Index(1, virt), flags, root, t1, r, PathTo(virt, 1));
        WalksCompose(m0, m1, mem, f0, f1, pmm.Free(), tab, t1, tab', root, r, User(flags));
        StepClear(m0, mem, f0, pmm.Free(), tab, tab', root, r, virt, 2);
        if ok {
          ghost var m2, f2, t2 := mem, pmm.Free(), tab';
          ok, pt, tab' := EnsureTable(pt, Index(2, virt), flags, root, t2, r, PathTo(virt, 2));
          WalksCompose(m0, m2, mem, f0, f2, pmm.Free(), tab, t2, tab', root, r, User(flags));
          if ok && User(flags) {
            PathForUser(m1, m2, mem, t1, t2, tab', virt);
          }
        }
      }
    }
  }

  /** Three levels, each leaving its pointer fit for user mode. */
  lemma PathForUser(a: Memory, b: Memory, c: Memory, s: Tables, t: Tables, u: Tables, v: nat)
    requires Marks(a, b, s, t, true) && Marks(b, c, t, u, true)
    requires PathTo(v, 1) in t && PathTo(v, 0) in t && PathTo(v, 0) in u && PathTo(v, 1) in u && PathTo(v, 2) in u
    requires PathTo(v, 3) in u
    requires Gives(Entry(a, s, PathTo(v, 0), Index(0, v)), UserMode)
    requires Gives(Entry(b, t, PathTo(v, 1), Index(1, v)), UserMode)
    requires Gives(Entry(c, u, PathTo(v, 2), Index(2, v)), UserMode)
    ensures PointersGive(c, u, v, UserMode)
  {
    hide Marks, Gives, Entry, Index, PathTo;
    UserKept(a, b, s, t, PathTo(v, 0), Index(0, v));
    UserKept(b, c, t, u, PathTo(v, 0), Index(0, v));
    UserKept(b, c, t, u, PathTo(v, 1), Index(1, v));
    ThreePointers(c, u, v, UserMode);
  }

  function Marked(mem: Memory, f: nat, i: nat, flags: Word): (r: Memory)
    requires f < |mem| && i < ENTRIES
    ensures |r| == |mem|
  {
    var w := Load(mem, f, i);
    if User(flags) && !User(w) then SetUserFits(w); Store(mem, f, i, w + 4) else mem
  }

  /** Setting user bits leaves what entries point to alone. */
  lemma MarkedSame(mem: Memory, f: nat, i: nat, flags: Word)
    requires f < |mem| && i < ENTRIES
    ensures |Marked(mem, f, i, flags)| == |mem|
    ensures forall g: nat, k: nat | k < ENTRIES ::
              var w, w' := Load(mem, g, k), Load(Marked(mem, f, i, flags), g, k);
              Frame(w') == Frame(w) && (Present(w') <==> Present(w)) && (Huge(w') <==> Huge(w))
    ensures forall g: nat, k: nat | k < ENTRIES :: g != f || k != i ==>
              Load(Marked(mem, f, i, flags), g, k) == Load(mem, g, k)
    ensures forall g | 0 <= g < |mem| && g != f :: Marked(mem, f, i, flags)[g] == mem[g]
  {
    hide Frame, User, Present, Huge;
    var w := Load(mem, f, i);
    if User(flags) && !User(w) {
      SetUserFits(w);
      UserBit(w, w + 4);
    }
  }

  /** The frame that a walk reads at depth `d` when it takes every entry for a pointer. */
  function WalkFrame(mem: Memory, root: nat, v: nat, d: nat): nat
    requires d <= 3
  {
    if d == 0 then root else Frame(Load(mem, WalkFrame(mem, root, v, d - 1), Index(d - 1, v)))
  }

  predicate PresentPath(mem: Memory, root: nat, v: nat) {
    && (forall d: nat | d <= 3 :: WalkFrame(mem, root, v, d) < |mem|)
    && (forall d: nat | d < 3 :: Present(Load(mem, WalkFrame(mem, root, v, d), Index(d, v))))
  }

  lemma FramesOfPath(mem: Memory, root: nat, v: nat)
    ensures WalkFrame(mem, root, v, 1) == Frame(Load(mem, root, Index(0, v)))
    ensures WalkFrame(mem, root, v, 2) == Frame(Load(mem, WalkFrame(mem, root, v, 1), Index(1, v)))
    ensures WalkFrame(mem, root, v, 3) == Frame(Load(mem, WalkFrame(mem, root, v, 2), Index(2, v)))
  {
  }

  /** Memory after the user bits on the way have been set. */
  function WalkMarked(mem: Memory, root: nat, v: nat, flags: Word): (r: Memory)
    requires PresentPath(mem, root, v)
    ensures |r| == |mem|
  {
    var f1, f2 := WalkFrame(mem, root, v, 1), WalkFrame(mem, root, v, 2);
    Marked(Marked(Marked(mem, root, Index(0, v), flags), f1, Index(1, v), flags), f2, Index(2, v), flags)
  }

  /** How many tables a mapping of `v` has to add. */
  ghost function Missing(tab: Tables, v: nat): nat {
    (if PathTo(v, 1) in tab then 0 else 1) + (if PathTo(v, 2) in tab then 0 else 1) +
    (if PathTo(v, 3) in tab then 0 else 1)
  }

  /** One level adds its table if it is missing and a frame is free, and fails if it is missing and none is. */
  ghost predicate Added(tab: Tables, tab': Tables, p: Pos, ok: bool, free: nat, free': nat) {
    && (ok <==> p in tab || free > 0)
    && tab'.Keys == (if ok then tab.Keys + {p} else tab.Keys)
    && free' == if ok && p !in tab then free - 1 else free
  }

  lemma NoPointer(mem: Memory, root: nat, tab: Tables, r: Region, p: Pos, x: nat)
    requires Tree(mem, root, tab, r) && p in tab && tab[p] < |mem| && Depth(p) < 3 && x < ENTRIES && Covers(r, p, x)
    requires !Present(mem[tab[p]][x])
    ensures Sub(p, x) !in tab
  {
    assert Linked(mem, tab, p, x);
  }

  /** What `vmm_map_page` may do before its last write: add tables and set user bits, without any visible effect. */
  ghost predicate Step(mem: Memory, mem': Memory, free: set<nat>, free': set<nat>, tab: Tables, tab': Tables,
                       root: nat, r: Region) {
    && Tree(mem', root, tab', r) && Grows(mem, mem', tab, tab', r) && SameTranslation(mem, mem', root, r)
    && FramesConserved(free, free', tab, tab')
  }

  lemma NoStep(mem: Memory, root: nat, tab: Tables, r: Region, free: set<nat>)
    requires Tree(mem, root, tab, r) && tab.Values !! free
    ensures Step(mem, mem, free, free, tab, tab, root, r)
  {
    hide Tree;
    RootOf(mem, root, tab, r);
  }

  lemma UserStep(mem: Memory, root: nat, tab: Tables, r: Region, p: Pos, x: nat, free: set<nat>)
    requires Tree(mem, root, tab, r) && tab.Values !! free && p in tab && tab[p] < |mem|
    requires Depth(p) < 3 && x < ENTRIES && Covers(r, p, x)
    requires Sub(p, x) in tab && !User(mem[tab[p]][x]) && mem[tab[p]][x] + 4 < U64
    ensures Step(mem, Store(mem, tab[p], x, mem[tab[p]][x] + 4), free, free, tab, tab, root, r)
  {
    hide Tree, Covers, User, Grows, SameTranslation;
    SetUserStep(mem, root, tab, r, p, x, mem[tab[p]][x] + 4);
  }

  lemma NewTableStep(mem: Memory, root: nat, tab: Tables, r: Region, p: Pos, x: nat, f: nat, flags: Word,
                     free: set<nat>)
    requires Tree(mem, root, tab, r) && tab.Values !! free && p in tab && tab[p] < |mem|
    requires Depth(p) < 3 && x < ENTRIES && Covers(r, p, x)
    requires !Present(mem[tab[p]][x]) && f in free && f < |mem| && f < Pmm.MAX_PAGES
    ensures Step(mem, Store(mem[f := ZeroTable()], tab[p], x, TableEntry(f, flags)), free, free - {f},
                 tab, tab[Sub(p, x) := f], root, r)
  {
    hide Covers, User, Present, Huge, Frame, SameTranslation, Grows, Shape, Injective, TableEntry;
    TableEntryBits(f, flags);
    LinkStep(mem, root, tab, r, p, x, f, TableEntry(f, flags));
    LinkedAt(mem, tab, r, p, x);
    NewValue(tab, Sub(p, x), f);
  }

  /** Clearing an entry, or nothing. */
  lemma UnmappedRights(mem: Memory, root: nat, tab: Tables, r: Region, u: nat)
    requires Tree(mem, root, tab, r) && InRegion(r, u)
    ensures MarksBut(mem, mem, tab, tab, false, u) && RightsKept(mem, mem, root, r, u, false)
    ensures PathTo(u, 3) in tab ==>
              var mem' := Store(mem, tab[PathTo(u, 3)], Index(3, u), 0);
              MarksBut(mem, mem', tab, tab, false, u) && RightsKept(mem, mem', root, r, u, false)
  {
    hide Index, InRegion, MarksBut, RightsKept, Linking, Injective, Marks;
    NothingMarked(mem, tab, false);
    MarksAlso(mem, mem, tab, tab, false, u);
    RightsAfter(mem, mem, root, tab, tab, r, false, u);
    if PathTo(u, 3) in tab {
      LeafStep(mem, root, tab, r, u, 0);
      LeafMarked(mem, mem, tab, tab, false, u, 0);
      RightsAfter(mem, Store(mem, tab[PathTo(u, 3)], Index(3, u), 0), root, tab, tab, r, false, u);
    }
  }

  lemma NewTableMarked(mem: Memory, root: nat, tab: Tables, r: Region, p: Pos, x: nat, f: nat, flags: Word)
    requires Tree(mem, root, tab, r) && p in tab && tab[p] < |mem| && Depth(p) < 3 && x < ENTRIES && Covers(r, p, x)
    requires !Present(mem[tab[p]][x]) && f !in tab.Values && f < |mem| && f < Pmm.MAX_PAGES
    ensures var mem' := Store(mem[f := ZeroTable()], tab[p], x, TableEntry(f, flags));
            var tab' := tab[Sub(p, x) := f];
            && Marks(mem, mem', tab, tab', User(flags))
            && (User(flags) ==> Gives(Entry(mem', tab', p, x), UserMode))
  {
    hide Covers, User, Present, Huge, Frame, Shape, Injective, TableEntry, NewPointer, Marks, Gives;
    TableEntryBits(f, flags);
    LinkedAt(mem, tab, r, p, x);
    TableMarked(mem, tab, p, x, f, TableEntry(f, flags), User(flags));
    NewPointerBits(TableEntry(f, flags), User(flags));
    ThreeBits(TableEntry(f, flags));
  }

  lemma MarkedEntry(mem: Memory, root: nat, tab: Tables, r: Region, p: Pos, x: nat, flags: Word)
    requires Tree(mem, root, tab, r) && p in tab && tab[p] < |mem| && Depth(p) < 3 && x < ENTRIES && Covers(r, p, x)
    requires Sub(p, x) in tab
    ensures var mem' := Marked(mem, tab[p], x, flags);
            && Marks(mem, mem', tab, tab, User(flags))
            && (User(flags) ==> Gives(Entry(mem', tab, p, x), UserMode))
  {
    hide Covers, User, Present, Huge, Frame, Shape, Injective, Marks, Gives;
    var w := mem[tab[p]][x];
    LinkedAt(mem, tab, r, p, x);
    NothingMarked(mem, tab, User(flags));
    ThreeBits(w);
    if User(flags) && !User(w) {
      SetUserFits(w);
      UserMarked(mem, tab, p, x);
      WithUser(w, w + 4);
      ThreeBits(w + 4);
    }
  }

  lemma PointerAt(mem: Memory, root: nat, tab: Tables, r: Region, p: Pos, x: nat)
    requires Tree(mem, root, tab, r) && p in tab && Depth(p) < 3 && x < ENTRIES && Covers(r, p, x)
    requires tab[p] < |mem| && Present(mem[tab[p]][x]) && (Depth(p) >= 1 ==> !LargePage(mem[tab[p]][x]))
    ensures Sub(p, x) in tab
  {
    hide Shape, Injective, Frame;
    LinkedAt(mem, tab, r, p, x);
  }

  /** After a step the entry still leads to the child. */
  lemma StepTree(mem: Memory, mem': Memory, free: set<nat>, free': set<nat>, tab: Tables, tab': Tables, root: nat,
                 r: Region, p: Pos, x: nat)
    requires Step(mem, mem', free, free', tab, tab', root, r) && p in tab && Depth(p) < 3 && x < ENTRIES
    requires Covers(r, p, x)
    requires Sub(p, x) in tab'
    ensures tab[p] < |mem'| && Frame(mem'[tab[p]][x]) == tab'[Sub(p, x)]
  {
    hide Shape, Injective, Frame;
    LinkedAt(mem', tab', r, p, x);
  }

  lemma StepParts(mem: Memory, mem': Memory, free: set<nat>, free': set<nat>, tab: Tables, tab': Tables, root: nat,
                  r: Region)
    requires Step(mem, mem', free, free', tab, tab', root, r)
    ensures Tree(mem', root, tab', r) && Grows(mem, mem', tab, tab', r) && SameTranslation(mem, mem', root, r)
    ensures FramesConserved(free, free', tab, tab')
  {
  }

  lemma StepsCompose(a: Memory, b: Memory, c: Memory, fa: set<nat>, fb: set<nat>, fc: set<nat>,
                     s: Tables, t: Tables, u: Tables, root: nat, r: Region)
    requires Step(a, b, fa, fb, s, t, root, r) && Step(b, c, fb, fc, t, u, root, r)
    ensures Step(a, c, fa, fc, s, u, root, r)
  {
    hide Tree, Grows;
    GrowsTransitive(a, b, c, s, t, u, r);
  }

  lemma WalksCompose(a: Memory, b: Memory, c: Memory, fa: set<nat>, fb: set<nat>, fc: set<nat>,
                     s: Tables, t: Tables, u: Tables, root: nat, r: Region, user: bool)
    requires Step(a, b, fa, fb, s, t, root, r) && Step(b, c, fb, fc, t, u, root, r)
    requires Marks(a, b, s, t, user) && Marks(b, c, t, u, user)
    ensures Step(a, c, fa, fc, s, u, root, r) && Marks(a, c, s, u, user)
  {
    hide Tree, Marks, SameTranslation, Confined, NoNewLargePage, FramesConserved;
    StepsCompose(a, b, c, fa, fb, fc, s, t, u, root, r);
    MarksTwice(a, b, c, s, t, u, user);
  }

  /** The walked path stays clear of large pages, so the next level may be entered. */
  lemma StepClear(mem: Memory, mem': Memory, free: set<nat>, free': set<nat>, tab: Tables, tab': Tables, root: nat,
                  r: Region, v: nat, d: nat)
    requires Step(mem, mem', free, free', tab, tab', root, r) && Bounded(tab, |mem|) && NoLargePageOn(mem, tab, v)
    requires 1 <= d < 3
    ensures Tree(mem', root, tab', r) && tab'.Values !! free' && |mem'| == |mem|
    ensures PathTo(v, d) in tab' ==> tab'[PathTo(v, d)] < |mem'| && !LargePage(mem'[tab'[PathTo(v, d)]][Index(d, v)])
  {
    hide Shape, Injective, Linking, LargePage, Index;
  }

  lemma TableInMemory(mem: Memory, tab: Tables, p: Pos)
    requires Bounded(tab, |mem|) && p in tab
    ensures tab[p] < |mem|
  {
  }

  /** The page of `u` translates through the entry `w`; every other address of the region translates as before. */
  ghost predicate Remapped(mem: Memory, mem': Memory, root: nat, r: Region, u: nat, w: Word) {
    forall v: nat | InRegion(r, v) ::
      Translate(mem', root, v) == if SamePage(u, v) then LeafTranslation(w, v) else Translate(mem, root, v)
  }

  lemma RemappedIntro(mem: Memory, mem': Memory, root: nat, r: Region, u: nat, w: Word)
    requires forall v: nat | InRegion(r, v) ::
               Translate(mem', root, v) == if SamePage(u, v) then LeafTranslation(w, v) else Translate(mem, root, v)
    ensures Remapped(mem, mem', root, r, u, w)
  {
  }

  /** A level of a read-only walk off large pages, in the processor's terms. */
  lemma Descend(mem: Memory, root: nat, tab: Tables, r: Region, v: nat, d: nat)
    requires Tree(mem, root, tab, r) && InRegion(r, v) && NoLargePageOn(mem, tab, v) && d <= 3 && PathTo(v, d) in tab
    ensures tab[PathTo(v, d)] < |mem|
    ensures var w := Load(mem, tab[PathTo(v, d)], Index(d, v));
            && (!Present(w) ==> HwFrom(mem, tab[PathTo(v, d)], d, v) == None)
            && (Present(w) && d < 3 ==> PathTo(v, d + 1) in tab && Frame(w) == tab[PathTo(v, d + 1)] &&
                                        HwFrom(mem, tab[PathTo(v, d)], d, v) == HwFrom(mem, Frame(w), d + 1, v))
            && (Present(w) && d == 3 ==> HwFrom(mem, tab[PathTo(v, d)], d, v).Some?)
  {
    hide Shape, Injective, Linking, Present, Index, Huge;
    HwStep(mem, root, tab, r, v, d);
  }

  /** In a created space: only that page of the user area changes. */
  ghost predicate RemappedUser(mem: Memory, mem': Memory, root: nat, u: nat, w: Word) {
    forall v: nat ::
      Translate(mem', root, v) ==
      (if InRegion(Private, v) && SamePage(u, v) then LeafTranslation(w, v) else Translate(mem, root, v))
  }

  lemma RemappedFrom(a: Memory, b: Memory, c: Memory, root: nat, r: Region, u: nat, w: Word)
    requires SameTranslation(a, b, root, r) && Remapped(b, c, root, r, u, w)
    ensures Remapped(a, c, root, r, u, w)
  {
  }

  lemma InvariantParts(mem: Memory, kernelRoot: nat, kernelTables: Tables, spaces: map<nat, Tables>, free: set<nat>,
                       ks: nat, ke: nat, s: nat)
    requires Invariant(mem, kernelRoot, kernelTables, spaces, free, ks, ke) && s in spaces
    ensures |mem| >= Pmm.MAX_PAGES && Tree(mem, s, spaces[s], Private) && SpaceOk(mem, s, spaces[s], kernelTables)
    ensures spaces[s].Values !! free
  {
    hide Tree;
    assert Owned(spaces[s], kernelTables, free, ks, ke);
  }

  lemma UserPathClear(mem: Memory, root: nat, tab: Tables, kernelTables: Tables, v: nat)
    requires SpaceOk(mem, root, tab, kernelTables) && InRegion(Private, v)
    ensures Bounded(tab, |mem|) && NoLargePageOn(mem, tab, v)
  {
    hide LargePage, Shape, Injective, Linking, InRegion, Index;
    forall d: nat | 1 <= d < 3 && PathTo(v, d) in tab
      ensures !LargePage(mem[tab[PathTo(v, d)]][Index(d, v)])
    {
      PathCovered(Private, v, d);
    }
  }

  /** What `vmm_get_phys` reads back once the walk reaches a page table. */
  lemma ReadsBack(mem: Memory, root: nat, tab: Tables, r: Region, v: nat)
    requires Tree(mem, root, tab, r) && InRegion(r, v) && NoLargePageOn(mem, tab, v) && PathTo(v, 3) in tab
    requires Present(mem[tab[PathTo(v, 3)]][Index(3, v)])
    ensures GetPhys(mem, root, v) == Frame(mem[tab[PathTo(v, 3)]][Index(3, v)]) * PAGE_SIZE + v % PAGE_SIZE
  {
    hide Present, Index, Injective, Frame, Linking, InRegion, NoLargePageOn;
    ghost var path := PathNames(v);
    Down(mem, root, tab, r, v, 0);
    Down(mem, root, tab, r, v, 1);
    Down(mem, root, tab, r, v, 2);
  }

  lemma Down(mem: Memory, root: nat, tab: Tables, r: Region, v: nat, d: nat)
    requires Tree(mem, root, tab, r) && InRegion(r, v) && d < 3 && PathTo(v, d + 1) in tab
    ensures PathTo(v, d) in tab
    ensures SoftFrom(mem, tab[PathTo(v, d)], d, v) == SoftFrom(mem, tab[PathTo(v, d + 1)], d + 1, v)
  {
    hide Index, Injective, Linking, InRegion, Huge;
    assert PathTo(v, d + 1).parent == PathTo(v, d);
    assert PathTo(v, d) in tab;
    LinkedAtPath(mem, root, tab, r, v, d);
  }

  lemma LinkedAtPath(mem: Memory, root: nat, tab: Tables, r: Region, v: nat, d: nat)
    requires Tree(mem, root, tab, r) && InRegion(r, v) && d < 3 && PathTo(v, d) in tab
    ensures Linked(mem, tab, PathTo(v, d), Index(d, v)) && PathTo(v, d + 1) == Sub(PathTo(v, d), Index(d, v))
  {
    hide Index, Injective, InRegion, Linked;
    PathCovered(r, v, d);
  }

  lemma NothingMoved(free: set<nat>, tab: Tables)
    requires tab.Values !! free
    ensures FramesConserved(free, free, tab, tab)
  {
  }

  lemma KernelParts(mem: Memory, kernelRoot: nat, kernelTables: Tables, spaces: map<nat, Tables>, free: set<nat>,
                    ks: nat, ke: nat)
    requires Invariant(mem, kernelRoot, kernelTables, spaces, free, ks, ke)
    ensures |mem| >= Pmm.MAX_PAGES && KernelOk(mem, kernelRoot, kernelTables, free) && kernelRoot < |mem|
    ensures kernelRoot !in free
    ensures kernelTables[Sub(Root, 0)] < |mem| && kernelTables[Sub(Root, 0)] !in free
    ensures kernelTables[Root] == kernelRoot && kernelTables[Sub(Root, 0)] != kernelRoot
    ensures Frame(mem[kernelRoot][0]) == kernelTables[Sub(Root, 0)]
  {
    assert kernelTables[Root] in kernelTables.Values && kernelTables[Sub(Root, 0)] in kernelTables.Values;
    assert Linked(mem, kernelTables, Root, 0);
  }

  /** A change inside one space leaves the rights in the kernel and in the other user areas alone. */
  lemma OthersRights(mem: Memory, mem': Memory, kernelRoot: nat, kernelTables: Tables, spaces: map<nat, Tables>,
                     free: set<nat>, free': set<nat>, ks: nat, ke: nat, root: nat, tab': Tables)
    requires Invariant(mem, kernelRoot, kernelTables, spaces, free, ks, ke) && root in spaces
    requires Invariant(mem', kernelRoot, kernelTables, spaces[root := tab'], free', ks, ke) && |mem'| == |mem|
    requires forall f | 0 <= f < |mem| && f !in tab'.Values :: mem'[f] == mem[f]
    ensures SameRights(mem, mem', kernelRoot, Whole)
    ensures forall s | s in spaces && s != root :: SameRights(mem, mem', s, Private)
  {
    hide Invariant, SameRights, Tree;
    KernelApartFrom(mem, mem', kernelRoot, kernelTables, spaces, free, free', ks, ke, root, tab');
    RightsUntouched(mem, mem', kernelRoot, kernelTables, Whole);
    forall s | s in spaces && s != root
      ensures SameRights(mem, mem', s, Private)
    {
      SpaceApartFrom(mem, mem', kernelRoot, kernelTables, spaces, free, free', ks, ke, root, tab', s);
      RightsUntouched(mem, mem', s, spaces[s], Private);
    }
  }

  /** Writes to free frames change no rights. */
  lemma FreeFramesRights(mem: Memory, mem': Memory, kernelRoot: nat, kernelTables: Tables, spaces: map<nat, Tables>,
                         free: set<nat>, ks: nat, ke: nat)
    requires Invariant(mem, kernelRoot, kernelTables, spaces, free, ks, ke) && |mem'| == |mem|
    requires forall f | 0 <= f < |mem| && f !in free :: mem'[f] == mem[f]
    ensures SameRights(mem, mem', kernelRoot, Whole)
    ensures forall s | s in spaces :: SameRights(mem, mem', s, Private)
  {
    hide SameRights, Shape, Injective, Linking, NoLargePages, SharedEntries, Reserved;
    FreeFramesWritten(mem, mem', kernelRoot, kernelTables, spaces, free, ks, ke);
    assert forall p | p in kernelTables :: kernelTables[p] in kernelTables.Values;
    RightsUntouched(mem, mem', kernelRoot, kernelTables, Whole);
    forall s | s in spaces
      ensures SameRights(mem, mem', s, Private)
    {
      assert SpaceOk(mem, s, spaces[s], kernelTables) && SpaceOk(mem', s, spaces[s], kernelTables);
      assert Owned(spaces[s], kernelTables, free, ks, ke);
      assert forall p | p in spaces[s] :: spaces[s][p] in spaces[s].Values;
      RightsUntouched(mem, mem', s, spaces[s], Private);
    }
  }

  lemma CreatedOpen(mem: Memory, root: nat, pdpt: nat)
    requires root < |mem| && pdpt < Pmm.MAX_PAGES && mem[root][0] == TableEntry(pdpt, 4)
    ensures Open(mem, NewTables(root, pdpt))
  {
    hide Gives, TableEntry, NewPointer;
    TableEntryBits(pdpt, 4);
    NewPointerBits(TableEntry(pdpt, 4), User(4));
  }

  // ---------- what a space shows ----------

  /** The last successful request for the page of `v`, if it mapped it. */
  ghost function Wanted(ops: seq<PageOp>, oks: seq<bool>, v: nat): (w: Option<PageOp>)
    requires |oks| == |ops|
    ensures w.Some? ==> w.value.MapPage?
  {
    if |ops| == 0 then None
    else
      var k := |ops| - 1;
      if oks[k] && SamePage(ops[k].virt, v) then (if ops[k].MapPage? then Some(ops[k]) else None)
      else Wanted(ops[..k], oks[..k], v)
  }

  /** The processor finds at `v` what the request asks for: the page, with user access and writing exactly as its flags
      say; or nothing. */
  ghost predicate ShowsAt(mem: Memory, root: nat, want: Option<PageOp>, v: nat)
    requires want.Some? ==> want.value.MapPage?
  {
    match want
    case None => Translate(mem, root, v) == None
    case Some(op) =>
      && Translate(mem, root, v) == LeafTranslation(LeafEntry(op.phys, op.flags), v)
      && (Granted(mem, root, 0, v, UserMode) <==> Gives(op.flags, UserMode))
      && (PageGives(mem, root, 0, v, UserMode) <==> Gives(op.flags, UserMode))
      && (Granted(mem, root, 0, v, Writing) <==> Gives(op.flags, Writing))
  }

  /** The user area is the function from pages to mappings that the requests describe. */
  ghost predicate Shows(mem: Memory, root: nat, tab: Tables, ops: seq<PageOp>, oks: seq<bool>)
    requires |oks| == |ops|
  {
    Open(mem, tab) && forall v: nat | InRegion(Private, v) :: ShowsAt(mem, root, Wanted(ops, oks, v), v)
  }

  ghost predicate SameOutside(mem: Memory, mem': Memory, root: nat) {
    forall v: nat | !InRegion(Private, v) :: Translate(mem', root, v) == Translate(mem, root, v)
  }

  /** Outside the user area the space shows what the kernel showed before. */
  ghost predicate ShowsKernel(mem: Memory, mem': Memory, root: nat, kernelRoot: nat) {
    forall v: nat | !InRegion(Private, v) :: Translate(mem', root, v) == Translate(mem, kernelRoot, v)
  }

  /** What the processor finds where a mapping without flags in bits 51:12 is shown. */
  lemma ShownAddress(mem: Memory, root: nat, op: PageOp, v: nat)
    requires op.MapPage? && ShowsAt(mem, root, Some(op), v) && HwFrame(op.flags) == 0
    ensures Translate(mem, root, v) == Some(HwFrame(op.phys) * PAGE_SIZE + v % PAGE_SIZE)
  {
    hide LeafEntry, Granted, PageGives, Gives, Translate, HwFrame, Present;
    LeafEntryBits(op.phys, op.flags);
    LeafHwAddress(op.phys, op.flags);
  }

  /** Addresses that see no change. */
  ghost predicate Unseen(mem: Memory, mem': Memory, root: nat, v: nat, user: bool) {
    && Translate(mem', root, v) == Translate(mem, root, v)
    && (Translate(mem, root, v).Some? ==> RightsKeptAt(mem, mem', root, 0, v, user))
  }

  ghost predicate UserFlag(op: PageOp) { op.MapPage? && User(op.flags) }

  /** The effect of one request: the addresses of its page see the request if it succeeds, all others see no change. */
  ghost predicate Effect(mem: Memory, mem': Memory, root: nat, tab: Tables, tab': Tables, op: PageOp, ok: bool) {
    && (Open(mem, tab) ==> Open(mem', tab'))
    && SameOutside(mem, mem', root)
    && forall v: nat | InRegion(Private, v) ::
         if ok && SamePage(op.virt, v) then
           Open(mem, tab) ==> ShowsAt(mem', root, if op.MapPage? then Some(op) else None, v)
         else Unseen(mem, mem', root, v, UserFlag(op))
  }

  lemma SameRightsAt(mem: Memory, root: nat, v: nat, user: bool)
    ensures RightsKeptAt(mem, mem, root, 0, v, user)
  {
  }

  lemma NoEffect(mem: Memory, root: nat, tab: Tables, op: PageOp)
    ensures Effect(mem, mem, root, tab, tab, op, false)
  {
    hide Translate, InRegion, SamePage, RightsKeptAt, User, Open;
    forall v: nat
      ensures Unseen(mem, mem, root, v, UserFlag(op))
    {
      SameRightsAt(mem, root, v, UserFlag(op));
    }
  }

  /** A successful mapping. */
  lemma MapEffect(mem: Memory, mem': Memory, root: nat, tab: Tables, tab': Tables, op: PageOp)
    requires op.MapPage? && RemappedUser(mem, mem', root, op.virt, LeafEntry(op.phys, op.flags))
    requires InRegion(Private, op.virt) && Shape(tab, root, Private)
    requires RightsKept(mem, mem', root, Private, op.virt, User(op.flags)) && (Open(mem, tab) ==> Open(mem', tab'))
    requires Granted(mem', root, 0, op.virt, UserMode) <==> Gives(op.flags, UserMode)
    requires PageGives(mem', root, 0, op.virt, UserMode) <==> Gives(op.flags, UserMode)
    requires Granted(mem', root, 0, op.virt, Writing) <==>
             Gives(op.flags, Writing) && PointersGive(mem, tab, op.virt, Writing)
    ensures Effect(mem, mem', root, tab, tab', op, true)
  {
    hide Translate, InRegion, SamePage, RightsKeptAt, User, Open, Granted, PageGives, Gives, LeafEntry, LeafTranslation,
         PointersGive, Shape;
    if Open(mem, tab) {
      OpenGives(mem, tab, root, Private, op.virt);
    }
    forall v: nat | InRegion(Private, v)
      ensures if SamePage(op.virt, v) then Open(mem, tab) ==> ShowsAt(mem', root, Some(op), v)
              else Unseen(mem, mem', root, v, UserFlag(op))
    {
      if SamePage(op.virt, v) {
        GrantedSamePage(mem', root, 0, op.virt, v, UserMode);
        GrantedSamePage(mem', root, 0, op.virt, v, Writing);
      }
    }
  }

  lemma UnmapEffect(mem: Memory, mem': Memory, root: nat, tab: Tables, op: PageOp)
    requires op.UnmapPage? && RemappedUser(mem, mem', root, op.virt, 0)
    requires RightsKept(mem, mem', root, Private, op.virt, false) && (Open(mem, tab) ==> Open(mem', tab))
    ensures Effect(mem, mem', root, tab, tab, op, true)
  {
    hide Translate, InRegion, SamePage, RightsKeptAt, Open;
    forall v: nat | InRegion(Private, v)
      ensures if SamePage(op.virt, v) then ShowsAt(mem', root, None, v) else Unseen(mem, mem', root, v, UserFlag(op))
    {
      assert LeafTranslation(0, v) == None;
    }
  }

  /** A mapping fails only for pages that were not mapped. */
  lemma FailedMap(mem: Memory, mem': Memory, root: nat, tab: Tables, tab': Tables, kernelTables: Tables, op: PageOp)
    requires SpaceOk(mem, root, tab, kernelTables) && Missing(tab, op.virt) > 0 && op.MapPage?
    requires InRegion(Private, op.virt) && SameEverywhere(mem, mem', root)
    requires RightsKept(mem, mem', root, Private, op.virt, User(op.flags)) && (Open(mem, tab) ==> Open(mem', tab'))
    ensures Effect(mem, mem', root, tab, tab', op, false)
  {
    hide Translate, InRegion, SamePage, RightsKeptAt, User, Open, SpaceOk, Missing, PathTo;
    forall v: nat | InRegion(Private, v)
      ensures Unseen(mem, mem', root, v, UserFlag(op))
    {
      if SamePage(op.virt, v) && Translate(mem, root, v).Some? {
        FoundNotMissing(mem, root, tab, kernelTables, v);
        SameMissing(tab, op.virt, v);
      }
    }
  }

  lemma SameMissing(tab: Tables, u: nat, v: nat)
    requires SamePage(u, v)
    ensures Missing(tab, u) == Missing(tab, v)
  {
    hide Index, SamePage;
    PathsOfPages(u, v);
    PathIndices(u);
    PathIndices(v);
    PathTwo(u);
    PathTwo(v);
  }

  lemma PathTwo(v: nat)
    ensures PathTo(v, 3).Sub? && PathTo(v, 3).parent == PathTo(v, 2)
    ensures PathTo(v, 2).Sub? && PathTo(v, 2).parent == PathTo(v, 1)
  {
    hide Index;
  }

  /** A walk in the user area that finds a page passes through tables of the space only. */
  lemma WalkInside(mem: Memory, root: nat, tab: Tables, kernelTables: Tables, v: nat, d: nat)
    requires SpaceOk(mem, root, tab, kernelTables) && InRegion(Private, v) && d < 3
    requires PathTo(v, d) in tab && HwFrom(mem, tab[PathTo(v, d)], d, v).Some?
    ensures PathTo(v, d + 1) in tab && HwFrom(mem, tab[PathTo(v, d + 1)], d + 1, v).Some?
  {
    hide Present, Huge, Index, Injective, Linking, InRegion;
    HwStep(mem, root, tab, Private, v, d);
    UserPathClear(mem, root, tab, kernelTables, v);
  }

  lemma FoundNotMissing(mem: Memory, root: nat, tab: Tables, kernelTables: Tables, v: nat)
    requires SpaceOk(mem, root, tab, kernelTables) && InRegion(Private, v) && Translate(mem, root, v).Some?
    ensures Missing(tab, v) == 0
  {
    hide HwFrom, PathTo, Index, InRegion, SpaceOk;
    RootOfSpace(mem, root, tab, kernelTables, v);
    WalkInside(mem, root, tab, kernelTables, v, 0);
    WalkInside(mem, root, tab, kernelTables, v, 1);
    WalkInside(mem, root, tab, kernelTables, v, 2);
  }

  lemma RootOfSpace(mem: Memory, root: nat, tab: Tables, kernelTables: Tables, v: nat)
    requires SpaceOk(mem, root, tab, kernelTables)
    ensures PathTo(v, 0) in tab && tab[PathTo(v, 0)] == root
  {
    hide Injective, Linking;
    assert PathTo(v, 0) == Root;
  }

  /** One more request. */
  lemma EffectShows(mem: Memory, mem': Memory, root: nat, tab: Tables, tab': Tables, ops: seq<PageOp>,
                    oks: seq<bool>, op: PageOp, ok: bool)
    requires |oks| == |ops| && Shows(mem, root, tab, ops, oks) && Effect(mem, mem', root, tab, tab', op, ok)
    ensures Shows(mem', root, tab', ops + [op], oks + [ok]) && SameOutside(mem, mem', root)
  {
    hide Translate, InRegion, SamePage, Open, ShowsAt, Unseen, SameOutside;
    forall v: nat | InRegion(Private, v)
      ensures ShowsAt(mem', root, Wanted(ops + [op], oks + [ok], v), v)
    {
      assert (ops + [op])[..|ops|] == ops && (oks + [ok])[..|oks|] == oks;
      assert ShowsAt(mem, root, Wanted(ops, oks, v), v);
      if !(ok && SamePage(op.virt, v)) {
        StillShown(mem, mem', root, Wanted(ops, oks, v), v, UserFlag(op));
      }
    }
  }

  lemma StillShown(mem: Memory, mem': Memory, root: nat, want: Option<PageOp>, v: nat, user: bool)
    requires want.Some? ==> want.value.MapPage?
    requires ShowsAt(mem, root, want, v) && Unseen(mem, mem', root, v, user)
    ensures ShowsAt(mem', root, want, v)
  {
    hide Translate, Granted, PageGives, Gives, LeafEntry, Present, HwFrame;
    if want.Some? {
      LeafEntryBits(want.value.phys, want.value.flags);
    }
  }

  lemma EmptyShows(mem: Memory, root: nat, kernelRoot: nat, tab: Tables)
    requires EmptyUserArea(mem, root, kernelRoot) && Open(mem, tab)
    ensures Shows(mem, root, tab, [], [])
  {
    hide Translate, InRegion, Open;
  }

  lemma NothingOutside(mem: Memory, root: nat)
    ensures SameOutside(mem, mem, root)
  {
  }

  lemma OutsideTwice(a: Memory, b: Memory, c: Memory, root: nat)
    requires SameOutside(a, b, root) && SameOutside(b, c, root)
    ensures SameOutside(a, c, root)
  {
    hide Translate, InRegion;
  }

  lemma OutsideKernel(a: Memory, b: Memory, c: Memory, root: nat, kernelRoot: nat)
    requires SameEverywhere(a, b, kernelRoot) && EmptyUserArea(b, root, kernelRoot) && SameOutside(b, c, root)
    ensures ShowsKernel(a, c, root, kernelRoot)
  {
    hide Translate, InRegion;
  }

  lemma BesidesRoot(before: map<nat, Tables>, mid: map<nat, Tables>, after: map<nat, Tables>, root: nat)
    requires root !in before && root in mid && mid == before[root := mid[root]]
    requires after.Keys == mid.Keys && after - {root} == mid - {root}
    ensures root in after && after == before[root := after[root]]
  {
    assert mid - {root} == before;
    assert forall s | s in after && s != root :: s in after - {root} && after[s] == (after - {root})[s];
  }

  lemma KernelApartFrom(mem: Memory, mem': Memory, kernelRoot: nat, kernelTables: Tables, spaces: map<nat, Tables>,
                        free: set<nat>, free': set<nat>, ks: nat, ke: nat, root: nat, tab': Tables)
    requires Invariant(mem, kernelRoot, kernelTables, spaces, free, ks, ke) && root in spaces
    requires Invariant(mem', kernelRoot, kernelTables, spaces[root := tab'], free', ks, ke) && |mem'| == |mem|
    requires forall f | 0 <= f < |mem| && f !in tab'.Values :: mem'[f] == mem[f]
    ensures Tree(mem, kernelRoot, kernelTables, Whole) && Tree(mem', kernelRoot, kernelTables, Whole)
    ensures forall p | p in kernelTables :: mem'[kernelTables[p]] == mem[kernelTables[p]]
  {
    hide SpaceOk, Reserved, Shape, Injective, Linking;
    assert Owned(spaces[root := tab'][root], kernelTables, free', ks, ke);
    assert forall p | p in kernelTables :: kernelTables[p] in kernelTables.Values;
  }

  lemma SpaceApartFrom(mem: Memory, mem': Memory, kernelRoot: nat, kernelTables: Tables, spaces: map<nat, Tables>,
                       free: set<nat>, free': set<nat>, ks: nat, ke: nat, root: nat, tab': Tables, s: nat)
    requires Invariant(mem, kernelRoot, kernelTables, spaces, free, ks, ke) && root in spaces
    requires Invariant(mem', kernelRoot, kernelTables, spaces[root := tab'], free', ks, ke) && |mem'| == |mem|
    requires forall f | 0 <= f < |mem| && f !in tab'.Values :: mem'[f] == mem[f]
    requires s in spaces && s != root
    ensures Tree(mem, s, spaces[s], Private) && Tree(mem', s, spaces[s], Private)
    ensures forall p | p in spaces[s] :: mem'[spaces[s][p]] == mem[spaces[s][p]]
  {
    hide KernelOk, Reserved, Shape, Injective, Linking, NoLargePages, SharedEntries;
    assert SpaceOk(mem, s, spaces[s], kernelTables) && SpaceOk(mem', s, spaces[root := tab'][s], kernelTables);
    assert spaces[root := tab'][root].Values !! spaces[root := tab'][s].Values;
    assert forall p | p in spaces[s] :: spaces[s][p] in spaces[s].Values;
  }

  lemma GrownTables(mem: Memory, mem': Memory, tab: Tables, tab': Tables, r: Region)
    requires Grows(mem, mem', tab, tab', r)
    ensures Extends(tab, tab')
  {
  }

  lemma GrownOnly(mem: Memory, mem': Memory, tab: Tables, tab': Tables, r: Region)
    requires Grows(mem, mem', tab, tab', r)
    ensures |mem'| == |mem| && forall f | 0 <= f < |mem| && f !in tab'.Values :: mem'[f] == mem[f]
  {
    hide Covers, NoNewLargePage;
  }

  lemma TwoFrames(free: set<nat>, a: nat, b: nat)
    requires a in free && b in free && a != b
    ensures |free| >= 2
  {
    Pmm.SubsetSize({a, b}, free);
  }

  lemma OneFrame(free: set<nat>, root: nat)
    requires root in free && free - {root} == {}
    ensures |free| == 1
  {
    assert free == {root};
  }

  lemma CreatedBy(mem0: Memory, mem: Memory, kernelRoot: nat, oldPdpt: nat, root: nat, pdpt: nat, entry: Word)
    requires kernelRoot < |mem0| && oldPdpt < |mem0| && root < |mem0| && pdpt < |mem0|
    requires root != pdpt && root != kernelRoot && pdpt != kernelRoot && root != oldPdpt && pdpt != oldPdpt
    requires var a := mem0[root := mem0[kernelRoot]];
             mem == Store(a[pdpt := a[oldPdpt][..4] + ZeroTable()[4..]], root, 0, entry)
    ensures Created(mem0, mem, kernelRoot, oldPdpt, root, pdpt, entry)
  {
  }

  lemma CreationDone(mem0: Memory, mem: Memory, kernelRoot: nat, kernelTables: Tables, spaces: map<nat, Tables>,
                     free: set<nat>, ks: nat, ke: nat, root: nat, pdpt: nat)
    requires Invariant(mem0, kernelRoot, kernelTables, spaces, free, ks, ke)
    requires forall f | f in free :: f < Pmm.MAX_PAGES && !Reserved(f, ks, ke)
    requires root in free && pdpt in free && root != pdpt && root < |mem0| && pdpt < |mem0| && kernelRoot < |mem0|
    requires Frame(mem0[kernelRoot][0]) < |mem0|
    requires var a := mem0[root := mem0[kernelRoot]];
             mem == Store(a[pdpt := a[Frame(mem0[kernelRoot][0])][..4] + ZeroTable()[4..]], root, 0,
                          TableEntry(pdpt, 4))
    ensures Invariant(mem, kernelRoot, kernelTables, spaces[root := NewTables(root, pdpt)], free - {root, pdpt}, ks, ke)
    ensures root !in spaces && NewTables(root, pdpt).Values == {root, pdpt}
    ensures SameEverywhere(mem0, mem, kernelRoot) && forall s | s in spaces :: SameEverywhere(mem0, mem, s)
    ensures EmptyUserArea(mem, root, kernelRoot) && SharesRights(mem, root, kernelRoot)
  {
    hide Invariant, Reserved, SameEverywhere, EmptyUserArea, TableEntry, Present, Huge, Frame, KernelOk, SharesRights,
         NewPointer, Gives;
    KernelParts(mem0, kernelRoot, kernelTables, spaces, free, ks, ke);
    TableEntryBits(pdpt, 4);
    CreatedBy(mem0, mem, kernelRoot, Frame(mem0[kernelRoot][0]), root, pdpt, TableEntry(pdpt, 4));
    CreateOperation(mem0, mem, kernelRoot, kernelTables, spaces, free, ks, ke, root, pdpt, TableEntry(pdpt, 4));
    NewShape(root, pdpt);
    CreatedView(mem0, mem, kernelRoot, kernelTables, free, root, pdpt, TableEntry(pdpt, 4));
    NewPointerBits(TableEntry(pdpt, 4), User(4));
    ThreeBits(TableEntry(pdpt, 4));
    CreatedShares(mem0, mem, kernelRoot, kernelTables, free, root, pdpt, TableEntry(pdpt, 4));
  }

  /** A new space gives no right inside the user area. Outside it gives every right that the kernel's tables give, and
      none that the kernel's entry for the page itself does not give. */
  ghost predicate SharesRights(mem: Memory, root: nat, kernelRoot: nat) {
    forall v: nat, a ::
      if InRegion(Private, v) then !Granted(mem, root, 0, v, a)
      else
        && (Granted(mem, kernelRoot, 0, v, a) ==> Granted(mem, root, 0, v, a))
        && (Granted(mem, root, 0, v, a) ==> PageGives(mem, kernelRoot, 0, v, a))
  }

  lemma CreatedShares(mem: Memory, mem': Memory, kernelRoot: nat, kernelTables: Tables, free: set<nat>, root: nat,
                      pdpt: nat, entry: Word)
    requires KernelOk(mem, kernelRoot, kernelTables, free) && root in free && pdpt in free && root != pdpt
    requires Created(mem, mem', kernelRoot, kernelTables[Sub(Root, 0)], root, pdpt, entry)
    requires Present(entry) && Frame(entry) == pdpt < Pmm.MAX_PAGES && Gives(entry, Writing) && Gives(entry, UserMode)
    ensures SharesRights(mem', root, kernelRoot)
  {
    hide KernelOk, Created, Present, Frame, InRegion, Translate, Granted, PageGives, Gives;
    forall v: nat, a
      ensures if InRegion(Private, v) then !Granted(mem', root, 0, v, a)
              else
                && (Granted(mem', kernelRoot, 0, v, a) ==> Granted(mem', root, 0, v, a))
                && (Granted(mem', root, 0, v, a) ==> PageGives(mem', kernelRoot, 0, v, a))
    {
      assert Gives(entry, a) by { assert a == Writing || a == UserMode; }
      CreatedRights(mem, mem', kernelRoot, kernelTables, free, root, pdpt, entry, v, a);
    }
  }

  lemma CreatedRights(mem: Memory, mem': Memory, kernelRoot: nat, kernelTables: Tables, free: set<nat>, root: nat,
                      pdpt: nat, entry: Word, v: nat, a: Right)
    requires KernelOk(mem, kernelRoot, kernelTables, free) && root in free && pdpt in free && root != pdpt
    requires Created(mem, mem', kernelRoot, kernelTables[Sub(Root, 0)], root, pdpt, entry)
    requires Present(entry) && Frame(entry) == pdpt < Pmm.MAX_PAGES && Gives(entry, a)
    ensures InRegion(Private, v) ==> !Granted(mem', root, 0, v, a)
    ensures !InRegion(Private, v) ==> (Granted(mem', kernelRoot, 0, v, a) ==> Granted(mem', root, 0, v, a))
    ensures !InRegion(Private, v) ==> (Granted(mem', root, 0, v, a) ==> PageGives(mem', kernelRoot, 0, v, a))
  {
    hide Present, Huge, Index, Injective, Frame, HwFrame, Gives;
    CreatedTranslations(mem, mem', kernelRoot, kernelTables, free, root, pdpt, entry, v);
    GrantedTranslates(mem', root, 0, v, a);
    RootFrame(mem, kernelRoot, kernelTables);
    assert kernelTables[Root] in kernelTables.Values && kernelTables[Sub(Root, 0)] in kernelTables.Values;
    if Index(0, v) == 0 {
      assert Linked(mem, kernelTables, Root, 0);
      FrameHw(entry);
      FrameHw(mem[kernelRoot][0]);
      if Index(1, v) < 4 {
        var f := kernelTables[Sub(Root, 0)];
        GrantedPage(mem', f, 1, v, a);
        assert Granted(mem', root, 0, v, a) <==> Granted(mem', pdpt, 1, v, a);
        assert Granted(mem', kernelRoot, 0, v, a) ==> Granted(mem', f, 1, v, a);
        assert PageGives(mem', f, 1, v, a) ==> PageGives(mem', kernelRoot, 0, v, a);
        assert Load(mem', pdpt, Index(1, v)) == Load(mem', f, Index(1, v));
      }
    } else {
      GrantedPage(mem', kernelRoot, 0, v, a);
      assert Load(mem', root, Index(0, v)) == Load(mem', kernelRoot, Index(0, v));
    }
  }

  lemma CreatedOnly(mem0: Memory, mem: Memory, kernelRoot: nat, root: nat, pdpt: nat)
    requires root < |mem0| && pdpt < |mem0| && kernelRoot < |mem0| && Frame(mem0[kernelRoot][0]) < |mem0|
    requires pdpt < Pmm.MAX_PAGES
    requires var a := mem0[root := mem0[kernelRoot]];
             mem == Store(a[pdpt := a[Frame(mem0[kernelRoot][0])][..4] + ZeroTable()[4..]], root, 0,
                          TableEntry(pdpt, 4))
    ensures |mem| == |mem0| && forall f | 0 <= f < |mem| && f != root && f != pdpt :: mem[f] == mem0[f]
  {
    hide Frame, TableEntry, ZeroTable;
  }

  /** The kernel's view outside the user area and nothing inside it. */
  ghost predicate EmptyUserArea(mem: Memory, root: nat, kernelRoot: nat) {
    && (forall v: nat | !InRegion(Private, v) :: Translate(mem, root, v) == Translate(mem, kernelRoot, v))
    && (forall v: nat | InRegion(Private, v) :: Translate(mem, root, v) == None)
  }

  lemma CreatedView(mem: Memory, mem': Memory, kernelRoot: nat, kernelTables: Tables, free: set<nat>, root: nat,
                    pdpt: nat, entry: Word)
    requires KernelOk(mem, kernelRoot, kernelTables, free) && root in free && pdpt in free && root != pdpt
    requires Created(mem, mem', kernelRoot, kernelTables[Sub(Root, 0)], root, pdpt, entry)
    requires Present(entry) && Frame(entry) == pdpt < Pmm.MAX_PAGES
    ensures EmptyUserArea(mem', root, kernelRoot)
  {
    hide KernelOk, Created, Present, Frame, InRegion, Translate;
    forall v: nat {
      CreatedTranslations(mem, mem', kernelRoot, kernelTables, free, root, pdpt, entry, v);
    }
  }

  // ---------- the frames freed so far by the destroy loops ----------

  /** Tables handled once the outer loop is at entry `i` and the inner loop at entry `j`. */
  predicate Done(p: Pos, i: nat, j: nat) {
    match p
    case Sub(Sub(Sub(Root, _), x), y) => x < i || (x == i && y < j)
    case Sub(Sub(Root, _), x) => x < i
    case _ => false
  }

  ghost function Freed(tab: Tables, i: nat, j: nat): set<nat> {
    set p | p in tab && Done(p, i, j) :: tab[p]
  }

  lemma FreedStart(root: nat, tab: Tables)
    requires Shape(tab, root, Private)
    ensures Freed(tab, 4, 0) == {}
  {
    forall p | p in tab
      ensures !Done(p, 4, 0)
    {
      Ancestors(tab, root, p);
    }
  }

  lemma Ancestors(tab: Tables, root: nat, p: Pos)
    requires Shape(tab, root, Private) && p in tab
    ensures match p
            case Sub(Sub(Sub(Root, z), x), y) => z == 0 && 4 <= x < ENTRIES && y < ENTRIES && p.parent in tab
            case Sub(Sub(Root, z), x) => z == 0 && 4 <= x < ENTRIES
            case Sub(Root, z) => z == 0
            case Root => true
            case _ => false
  {
    if p.Sub? {
      assert p.parent in tab;
      if p.parent.Sub? {
        assert p.parent.parent in tab;
      }
    }
  }

  lemma FreedEntry(root: nat, tab: Tables, i: nat, j: nat)
    requires Shape(tab, root, Private)
    ensures var pt := Sub(Sub(Sub(Root, 0), i), j);
            Freed(tab, i, j + 1) == Freed(tab, i, j) + (if pt in tab then {tab[pt]} else {})
  {
    var pt := Sub(Sub(Sub(Root, 0), i), j);
    forall p | p in tab
      ensures Done(p, i, j + 1) <==> Done(p, i, j) || p == pt
    {
      Ancestors(tab, root, p);
    }
    var a, b := Freed(tab, i, j), Freed(tab, i, j + 1);
    assert pt in tab ==> tab[pt] in b;
  }

  lemma FreedRow(root: nat, tab: Tables, i: nat)
    requires Shape(tab, root, Private)
    ensures var pd := Sub(Sub(Root, 0), i);
            && Freed(tab, i + 1, 0) == Freed(tab, i, ENTRIES) + (if pd in tab then {tab[pd]} else {})
            && (pd !in tab ==> Freed(tab, i, ENTRIES) == Freed(tab, i, 0))
  {
    var pd := Sub(Sub(Root, 0), i);
    forall p | p in tab
      ensures Done(p, i + 1, 0) <==> Done(p, i, ENTRIES) || p == pd
      ensures pd !in tab ==> (Done(p, i, ENTRIES) <==> Done(p, i, 0))
    {
      Ancestors(tab, root, p);
    }
    assert pd in tab ==> tab[pd] in Freed(tab, i + 1, 0);
  }

  lemma FreedAll(root: nat, tab: Tables)
    requires Shape(tab, root, Private) && Sub(Root, 0) in tab
    ensures Freed(tab, ENTRIES, 0) + {tab[Sub(Root, 0)]} + {tab[Root]} == tab.Values
  {
    forall p | p in tab
      ensures Done(p, ENTRIES, 0) || p == Sub(Root, 0) || p == Root
    {
      Ancestors(tab, root, p);
    }
    assert tab[Root] in tab.Values && tab[Sub(Root, 0)] in tab.Values;
  }

  lemma UserEntry(mem: Memory, root: nat, tab: Tables, kernelTables: Tables, p: Pos, x: nat)
    requires SpaceOk(mem, root, tab, kernelTables) && p in tab && Depth(p) < 3 && x < ENTRIES && Covers(Private, p, x)
    ensures tab[p] < |mem| && (Present(mem[tab[p]][x]) <==> Sub(p, x) in tab)
    ensures Sub(p, x) in tab ==> Frame(mem[tab[p]][x]) == tab[Sub(p, x)]
  {
    hide Present, Huge, Shape, Injective;
    assert Linked(mem, tab, p, x);
    assert !LargePage(mem[tab[p]][x]);
  }

  lemma FreeableFrame(pmm: Pmm.PageAllocator, f: nat)
    requires f < Pmm.MAX_PAGES && !Reserved(f, pmm.kernelStart, pmm.kernelEnd)
    ensures f * PAGE_SIZE < U64 && pmm.Freeable(f * PAGE_SIZE) && f * PAGE_SIZE / PAGE_SIZE == f
  {
    hide Pmm.PageIsReserved;
  }

  lemma PathNames(v: nat) returns (path: seq<Pos>)
    ensures PathTo(v, 0) == Root && PathTo(v, 1) == Sub(Root, Index(0, v))
    ensures PathTo(v, 2) == Sub(PathTo(v, 1), Index(1, v)) && PathTo(v, 3) == Sub(PathTo(v, 2), Index(2, v))
  {
    path := [PathTo(v, 0), PathTo(v, 1), PathTo(v, 2), PathTo(v, 3)];
  }

  lemma RootOf(mem: Memory, root: nat, tab: Tables, r: Region)
    requires Tree(mem, root, tab, r)
    ensures Root in tab && tab[Root] == root < |mem| && Bounded(tab, |mem|)
  {
  }

  lemma BoundedTree(mem: Memory, root: nat, tab: Tables, r: Region)
    requires Tree(mem, root, tab, r)
    ensures Bounded(tab, |mem|)
  {
  }

  lemma SetUserFits(w: Word)
    requires !User(w)
    ensures w + 4 < U64
  {
    assert w / 4 % 2 == 0;
  }

  lemma NewValue(tab: Tables, p: Pos, f: nat)
    requires p !in tab
    ensures tab[p := f].Values == tab.Values + {f}
  {
    assert tab[p := f][p] == f;
    forall q | q in tab
      ensures tab[q] in tab[p := f].Values
    {
      assert tab[p := f][q] == tab[q];
    }
  }

  lemma FreeBelowLimit(before: seq<bv8>, f: nat)
    requires |before| == Pmm.BITMAP_SIZE && f in Pmm.ClearBits(before)
    ensures f < Pmm.MAX_PAGES
  {
  }
}
