/** The page tables that the boot code leaves (stage2.asm) and what the memory manager does on a large page (vmm.c). */
module BootMap {
  import opened Options
  import opened Words
  import opened PageTables
  import opened AddressSpaces
  import opened Vmm
  import Pmm

  const LARGE: nat := 0x20_0000

  // ---------- a walk that meets a large page ----------

  /** The walk to `v` meets a 2-MiB page at depth 2, below two tables that lie where the processor looks for them. */
  predicate MeetsLargePage(mem: Memory, root: nat, v: nat) {
    var f1, f2 := WalkFrame(mem, root, v, 1), WalkFrame(mem, root, v, 2);
    && PresentPath(mem, root, v) && f1 < 0x100_0000_0000 && f2 < 0x100_0000_0000
    && !Huge(Load(mem, f1, Index(1, v))) && Huge(Load(mem, f2, Index(2, v)))
  }

  /** The address that the processor finds. */
  function LargeAddress(mem: Memory, root: nat, v: nat): nat {
    WalkFrame(mem, root, v, 3) / 512 % 0x8000_0000 * LARGE + v % LARGE
  }

  lemma LargeWalk(mem: Memory, root: nat, v: nat)
    requires MeetsLargePage(mem, root, v)
    ensures Translate(mem, root, v) == Some(LargeAddress(mem, root, v))
  {
    hide Index, Present, Huge;
    var f1, f2 := WalkFrame(mem, root, v, 1), WalkFrame(mem, root, v, 2);
    FramesOfPath(mem, root, v);
    var w := Load(mem, f2, Index(2, v));
    assert HwFrom(mem, f2, 2, v) == Some(w / LARGE % 0x8000_0000 * LARGE + v % LARGE);
    DivDiv(w, PAGE_SIZE, 512);
    assert HwFrom(mem, f1, 1, v) == HwFrom(mem, f2, 2, v) by { SmallFrame(Load(mem, f1, Index(1, v))); }
    assert HwFrom(mem, root, 0, v) == HwFrom(mem, f1, 1, v) by { SmallFrame(Load(mem, root, Index(0, v))); }
  }

  lemma SmallFrame(w: Word)
    requires Frame(w) < 0x100_0000_0000
    ensures HwFrame(w) == Frame(w)
  {
  }

  /** Two memories whose entries on the way to `v` agree in what matters to a walk. */
  ghost predicate SameWay(mem: Memory, mem': Memory, f: nat, i: nat)
    requires i < ENTRIES
  {
    var w, w' := Load(mem, f, i), Load(mem', f, i);
    Frame(w') == Frame(w) && (Present(w') <==> Present(w)) && (Huge(w') <==> Huge(w))
  }

  lemma SamePath(mem: Memory, mem': Memory, root: nat, v: nat)
    requires |mem'| == |mem|
    requires forall d: nat | d < 3 :: SameWay(mem, mem', WalkFrame(mem, root, v, d), Index(d, v))
    ensures forall d: nat | d <= 3 :: WalkFrame(mem', root, v, d) == WalkFrame(mem, root, v, d)
    ensures MeetsLargePage(mem, root, v) ==> MeetsLargePage(mem', root, v)
  {
    hide Index, Frame, Present, Huge;
    FramesOfPath(mem, root, v);
    FramesOfPath(mem', root, v);
    assert SameWay(mem, mem', WalkFrame(mem, root, v, 0), Index(0, v));
    assert SameWay(mem, mem', WalkFrame(mem, root, v, 1), Index(1, v));
    assert SameWay(mem, mem', WalkFrame(mem, root, v, 2), Index(2, v));
    forall d: nat | d <= 3
      ensures WalkFrame(mem', root, v, d) == WalkFrame(mem, root, v, d)
    {
      if d != 0 && d != 1 && d != 2 { assert d == 3; }
    }
  }

  lemma MarksKeepPath(mem: Memory, root: nat, v: nat, flags: Word)
    requires PresentPath(mem, root, v)
    ensures |WalkMarked(mem, root, v, flags)| == |mem|
    ensures forall d: nat | d < 3 ::
              SameWay(mem, WalkMarked(mem, root, v, flags), WalkFrame(mem, root, v, d), Index(d, v))
    ensures forall f | 0 <= f < |mem| && f != root && f != WalkFrame(mem, root, v, 1)
            && f != WalkFrame(mem, root, v, 2) ::
              WalkMarked(mem, root, v, flags)[f] == mem[f]
  {
    hide Index, Frame, Present, Huge, Marked;
    var f1, f2 := WalkFrame(mem, root, v, 1), WalkFrame(mem, root, v, 2);
    assert WalkFrame(mem, root, v, 0) == root;
    var m1 := Marked(mem, root, Index(0, v), flags);
    MarkedSame(mem, root, Index(0, v), flags);
    var m2 := Marked(m1, f1, Index(1, v), flags);
    MarkedSame(m1, f1, Index(1, v), flags);
    MarkedSame(m2, f2, Index(2, v), flags);
  }

  /**
    * `vmm_map_page` on an address behind a 2-MiB page writes its entry into the first frame of that page, as if it were
    * a table; what the processor finds at the address itself stays as it was. `vmm_get_phys` reads the same word of the
    * page.
    */
  lemma LargePageHit(mem: Memory, root: nat, v: nat, phys: Word, flags: Word)
    requires MeetsLargePage(mem, root, v)
    requires var f := WalkFrame(mem, root, v, 3);
             f != root && f != WalkFrame(mem, root, v, 1) && f != WalkFrame(mem, root, v, 2)
    ensures var f := WalkFrame(mem, root, v, 3);
            var mem' := Store(WalkMarked(mem, root, v, flags), f, Index(3, v), LeafEntry(phys, flags));
            && mem'[f] == mem[f][Index(3, v) := LeafEntry(phys, flags)]
            && Translate(mem', root, v) == Translate(mem, root, v) == Some(LargeAddress(mem, root, v))
    ensures var w := Load(mem, WalkFrame(mem, root, v, 3), Index(3, v));
            GetPhys(mem, root, v) == if Present(w) then Frame(w) * PAGE_SIZE + v % PAGE_SIZE else 0
  {
    hide Index, Frame, Present, Huge, WalkMarked, LeafEntry, Translate, GetPhys, HwFrom, SoftFrom;
    var f := WalkFrame(mem, root, v, 3);
    var marked := WalkMarked(mem, root, v, flags);
    MarksKeepPath(mem, root, v, flags);
    var mem' := Store(marked, f, Index(3, v), LeafEntry(phys, flags));
    FramesOfPath(mem, root, v);
    forall d: nat | d < 3
      ensures SameWay(mem, mem', WalkFrame(mem, root, v, d), Index(d, v))
    {
      if d != 0 && d != 1 { assert d == 2; }
    }
    SamePath(mem, mem', root, v);
    LargeWalk(mem, root, v);
    LargeWalk(mem', root, v);
    SoftWalk(mem, root, v);
  }

  lemma MarksAlike(mem: Memory, root: nat, v: nat, flags: Word)
    requires PresentPath(mem, root, v)
    ensures Alike(mem, WalkMarked(mem, root, v, flags))
  {
    hide Index, Frame, Present, Huge, Marked;
    var f1, f2 := WalkFrame(mem, root, v, 1), WalkFrame(mem, root, v, 2);
    assert WalkFrame(mem, root, v, 0) == root;
    var m1 := Marked(mem, root, Index(0, v), flags);
    MarkedSame(mem, root, Index(0, v), flags);
    var m2 := Marked(m1, f1, Index(1, v), flags);
    MarkedSame(m1, f1, Index(1, v), flags);
    var m3 := Marked(m2, f2, Index(2, v), flags);
    MarkedSame(m2, f2, Index(2, v), flags);
    forall f: nat, i: nat | f < |mem| && i < ENTRIES
      ensures AlikeEntry(mem[f][i], m3[f][i])
    {
      assert Load(mem, f, i) == mem[f][i] && Load(m3, f, i) == m3[f][i];
    }
  }

  /** The frame that is written holds no table of the kernel or of a space. */
  ghost predicate NoTable(kernelTables: Tables, spaces: map<nat, Tables>, f: nat) {
    f !in kernelTables.Values && forall s | s in spaces :: f !in spaces[s].Values
  }

  /** If it holds none, no address of any space translates differently, and the ownership invariant is kept. */
  lemma BehindLargePage(mem: Memory, kernelRoot: nat, kernelTables: Tables, spaces: map<nat, Tables>, free: set<nat>,
                        ks: nat, ke: nat, v: nat, flags: Word, w: Word)
    requires Invariant(mem, kernelRoot, kernelTables, spaces, free, ks, ke) && PresentPath(mem, kernelRoot, v)
    requires NoTable(kernelTables, spaces, WalkFrame(mem, kernelRoot, v, 3))
    ensures var mem' := Store(WalkMarked(mem, kernelRoot, v, flags), WalkFrame(mem, kernelRoot, v, 3), Index(3, v), w);
            && Invariant(mem', kernelRoot, kernelTables, spaces, free, ks, ke)
            && SameEverywhere(mem, mem', kernelRoot) && forall s | s in spaces :: SameEverywhere(mem, mem', s)
  {
    hide Invariant, SameEverywhere, WalkMarked, Alike, Index;
    var f, marked := WalkFrame(mem, kernelRoot, v, 3), WalkMarked(mem, kernelRoot, v, flags);
    MarksAlike(mem, kernelRoot, v, flags);
    AlikeSize(mem, marked);
    AlikeInvariant(mem, marked, kernelRoot, kernelTables, spaces, free, ks, ke);
    var mem' := Store(marked, f, Index(3, v), w);
    OtherFramesWritten(marked, mem', kernelRoot, kernelTables, spaces, free, ks, ke, {f});
    SameTwice(mem, marked, mem');
  }

  /** `vmm_map_page` with a null space on an address behind a large page, if all words on the way are present, as they
      are for 2-MiB pages, and the frame written holds no table. */
  method MapBehind(mm: MemoryManager, virt: Word, phys: Word, flags: Word)
    requires mm.Valid() && PresentPath(mm.mem, mm.kernelRoot, virt)
    requires NoTable(mm.kernelTables, mm.spaces, WalkFrame(mm.mem, mm.kernelRoot, virt, 3))
    modifies mm`mem
    ensures mm.Valid() && SameEverywhere(old(mm.mem), mm.mem, mm.kernelRoot)
    ensures forall s | s in mm.spaces :: SameEverywhere(old(mm.mem), mm.mem, s)
    ensures Load(mm.mem, old(WalkFrame(mm.mem, mm.kernelRoot, virt, 3)), Index(3, virt)) == LeafEntry(phys, flags)
  {
    hide Invariant, SameEverywhere, WalkMarked, LeafEntry, Index;
    BehindLargePage(mm.mem, mm.kernelRoot, mm.kernelTables, mm.spaces, mm.pmm.Free(), mm.pmm.kernelStart,
                    mm.pmm.kernelEnd, virt, flags, LeafEntry(phys, flags));
    mm.MapPresent(mm.kernelRoot, virt, phys, flags);
  }

  /** `vmm_unmap_page` there clears a word of the page, if that is odd. */
  method UnmapBehind(mm: MemoryManager, virt: Word) returns (ok: bool)
    requires mm.Valid() && PresentPath(mm.mem, mm.kernelRoot, virt)
    requires NoTable(mm.kernelTables, mm.spaces, WalkFrame(mm.mem, mm.kernelRoot, virt, 3))
    modifies mm`mem
    ensures mm.Valid() && SameEverywhere(old(mm.mem), mm.mem, mm.kernelRoot)
    ensures forall s | s in mm.spaces :: SameEverywhere(old(mm.mem), mm.mem, s)
    ensures var f := old(WalkFrame(mm.mem, mm.kernelRoot, virt, 3));
            && ok == Present(Load(old(mm.mem), f, Index(3, virt)))
            && f < |old(mm.mem)|
            && mm.mem == if ok then Store(old(mm.mem), f, Index(3, virt), 0) else old(mm.mem)
  {
    hide Invariant, SameEverywhere, Index, Present, Huge, Frame;
    FramesOfPath(mm.mem, mm.kernelRoot, virt);
    Unchanged(mm.mem);
    var pdpt := Frame(Load(mm.mem, mm.kernelRoot, Index(0, virt)));
    var pd := Frame(Load(mm.mem, pdpt, Index(1, virt)));
    var pt := Frame(Load(mm.mem, pd, Index(2, virt)));
    if !Present(Load(mm.mem, pt, Index(3, virt))) {
      return false;
    }
    OtherFramesWritten(mm.mem, Store(mm.mem, pt, Index(3, virt), 0), mm.kernelRoot, mm.kernelTables, mm.spaces,
                       mm.pmm.Free(), mm.pmm.kernelStart, mm.pmm.kernelEnd, {pt});
    mm.mem := Store(mm.mem, pt, Index(3, virt), 0);
    return true;
  }

  lemma SoftWalk(mem: Memory, root: nat, v: nat)
    requires PresentPath(mem, root, v)
    ensures var w := Load(mem, WalkFrame(mem, root, v, 3), Index(3, v));
            GetPhys(mem, root, v) == if Present(w) then Frame(w) * PAGE_SIZE + v % PAGE_SIZE else 0
  {
    hide Index, Frame, Present;
    FramesOfPath(mem, root, v);
    var f1, f2, f3 := WalkFrame(mem, root, v, 1), WalkFrame(mem, root, v, 2), WalkFrame(mem, root, v, 3);
    assert SoftFrom(mem, root, 0, v) == SoftFrom(mem, f1, 1, v);
    assert SoftFrom(mem, f1, 1, v) == SoftFrom(mem, f2, 2, v);
    assert SoftFrom(mem, f2, 2, v) == SoftFrom(mem, f3, 3, v);
  }

  // ---------- the tables of the boot code ----------

  /** Directory `k`: 512 pages of 2 MiB, present and writable, that map the addresses to themselves. */
  function Directory(k: nat): (t: Table)
    requires k < 4
  {
    seq(512, i requires 0 <= i < 512 => (k * 512 + i) * LARGE + 0x83)
  }

  function Pointer(f: nat): Word
    requires f < Pmm.MAX_PAGES
  {
    f * PAGE_SIZE + 3
  }

  function Pointers(b: nat): (t: Table)
    requires b + 6 <= Pmm.MAX_PAGES
  {
    ZeroTable()[0 := Pointer(b + 2)][1 := Pointer(b + 3)][2 := Pointer(b + 4)][3 := Pointer(b + 5)]
  }

  /** Six consecutive frames from `b` on: the root, one second-level table, four directories. */
  function BootMemory(mem: Memory, b: nat): (r: Memory)
    requires b + 6 <= Pmm.MAX_PAGES <= |mem|
    ensures |r| == |mem|
  {
    mem[b := ZeroTable()[0 := Pointer(b + 1)]][b + 1 := Pointers(b)]
    [b + 2 := Directory(0)][b + 3 := Directory(1)][b + 4 := Directory(2)][b + 5 := Directory(3)]
  }

  function Dir(k: nat): Pos { Sub(Sub(Root, 0), k) }

  function BootTables(b: nat): Tables {
    map[Root := b, Sub(Root, 0) := b + 1, Dir(0) := b + 2, Dir(1) := b + 3, Dir(2) := b + 4, Dir(3) := b + 5]
  }

  lemma PointerBits(f: nat)
    requires f < Pmm.MAX_PAGES
    ensures Present(Pointer(f)) && !Huge(Pointer(f)) && Frame(Pointer(f)) == f
  {
    KernelEntry(f);
  }

  lemma LargeBits(n: nat)
    requires n < 2048
    ensures var w: Word := n * LARGE + 0x83; Present(w) && Huge(w) && Frame(w) == n * 512
  {
    var w: Word := n * LARGE + 0x83;
    ModUnique(w, 2, n * 0x10_0000 + 0x41, 1);
    ModUnique(w, 128, n * 0x4000 + 1, 3);
    ModUnique(n * 0x4000 + 1, 2, n * 0x2000, 1);
    ModUnique(w, PAGE_SIZE, n * 512, 0x83);
  }

  /** What the frames hold. */
  lemma BootFrames(mem: Memory, b: nat)
    requires b + 6 <= Pmm.MAX_PAGES <= |mem|
    ensures var m := BootMemory(mem, b);
            && m[b] == ZeroTable()[0 := Pointer(b + 1)] && m[b + 1] == Pointers(b)
            && forall k | 0 <= k < 4 :: m[b + 2 + k] == Directory(k)
  {
    hide Directory, Pointers, Pointer;
  }

  lemma PointersAt(b: nat, x: nat)
    requires b + 6 <= Pmm.MAX_PAGES && x < ENTRIES
    ensures Pointers(b)[x] == if x < 4 then Pointer(b + 2 + x) else 0
  {
    hide Pointer;
  }

  /** The place of the table in frame `b + k`. */
  function Place(k: nat): Pos { if k == 0 then Root else if k == 1 then Sub(Root, 0) else Dir(k - 2) }

  lemma BootPlaces(b: nat)
    ensures forall p | p in BootTables(b) :: b <= BootTables(b)[p] < b + 6 && p == Place(BootTables(b)[p] - b)
  {
  }

  lemma BootShape(b: nat)
    ensures Shape(BootTables(b), b, Whole) && Injective(BootTables(b))
  {
    assert Injective(BootTables(b)) by {
      hide BootTables, Place;
      BootPlaces(b);
    }
    assert Shape(BootTables(b), b, Whole) by {
      hide Injective, BootTables, Place;
      BootKeys(b);
    }
  }

  lemma BootKeys(b: nat)
    ensures Root in BootTables(b) && BootTables(b)[Root] == b
    ensures forall p :: p in BootTables(b) <==>
              p == Root || p == Sub(Root, 0) || p == Dir(0) || p == Dir(1) || p == Dir(2) || p == Dir(3)
  {
  }

  /** These are tables as the memory manager expects them: the ownership invariant holds when `vmm_init` takes them
      over. */
  lemma BootKernel(mem: Memory, b: nat, free: set<nat>, ks: nat, ke: nat)
    requires b + 6 <= Pmm.MAX_PAGES <= |mem| && forall f | f in free :: f < b || b + 6 <= f
    ensures Invariant(BootMemory(mem, b), b, BootTables(b), map[], free, ks, ke)
  {
    hide Present, Huge, Frame, Shape, Injective, BootMemory, Directory, Pointers, Pointer;
    var m, tab := BootMemory(mem, b), BootTables(b);
    BootShape(b);
    BootFrames(mem, b);
    forall p, x: nat | p in tab && Depth(p) < 3 && x < ENTRIES
      ensures Linked(m, tab, p, x)
    {
      BootLinked(mem, b, p, x);
    }
  }

  lemma BootLinked(mem: Memory, b: nat, p: Pos, x: nat)
    requires b + 6 <= Pmm.MAX_PAGES <= |mem| && p in BootTables(b) && x < ENTRIES
    ensures Linked(BootMemory(mem, b), BootTables(b), p, x)
  {
    hide Present, Huge, Frame, BootMemory, Directory, Pointers, Pointer;
    BootFrames(mem, b);
    ZeroEntry();
    if p == Root {
      PointerBits(b + 1);
    } else if p == Sub(Root, 0) {
      PointersAt(b, x);
      if x < 4 { PointerBits(b + 2 + x); }
    } else {
      var k := p.idx;
      DirectoryAt(k, x);
      LargeBits(k * 512 + x);
      assert BootMemory(mem, b)[BootTables(b)[p]] == BootMemory(mem, b)[b + 2 + k];
    }
  }

  lemma DirectoryAt(k: nat, x: nat)
    requires k < 4 && x < 512
    ensures Directory(k)[x] == (k * 512 + x) * LARGE + 0x83
  {
  }

  /** The walk to an address below 4 GiB: its large page starts at frame `v / 2 MiB * 512`. */
  lemma BootPath(mem: Memory, b: nat, v: nat)
    requires b + 6 <= Pmm.MAX_PAGES <= |mem| && v < 0x1_0000_0000
    ensures var m := BootMemory(mem, b);
            && MeetsLargePage(m, b, v) && WalkFrame(m, b, v, 1) == b + 1
            && WalkFrame(m, b, v, 2) == b + 2 + v / 0x4000_0000 && WalkFrame(m, b, v, 3) == v / LARGE * 512
  {
    hide Present, Huge, Frame, BootMemory, Directory, Pointers, Pointer, Index;
    var m, k, x := BootMemory(mem, b), v / 0x4000_0000, v / LARGE % 512;
    BootFrames(mem, b);
    BootIndices(v);
    PointerBits(b + 1);
    PointersAt(b, k);
    PointerBits(b + 2 + k);
    DirectoryAt(k, x);
    LargeBits(k * 512 + x);
    FramesOfPath(m, b, v);
    assert Load(m, b, 0) == Pointer(b + 1);
    assert Load(m, b + 1, k) == Pointer(b + 2 + k);
    assert Load(m, b + 2 + k, x) == (k * 512 + x) * LARGE + 0x83;
  }

  lemma BootIndices(v: nat)
    requires v < 0x1_0000_0000
    ensures Index(0, v) == 0 && Index(1, v) == v / 0x4000_0000 < 4 && Index(2, v) == v / LARGE % 512
    ensures v / 0x4000_0000 * 512 + v / LARGE % 512 == v / LARGE < 2048
  {
    DivDiv(v, LARGE, 512);
  }

  /** The boot code maps the first 4 GiB to themselves. */
  lemma BootIdentity(mem: Memory, b: nat, v: nat)
    requires b + 6 <= Pmm.MAX_PAGES <= |mem| && v < 0x1_0000_0000
    ensures Translate(BootMemory(mem, b), b, v) == Some(v)
  {
    hide BootMemory, MeetsLargePage, Translate;
    var n := v / LARGE;
    BootPath(mem, b, v);
    BootIndices(v);
    LargeWalk(BootMemory(mem, b), b, v);
    ModUnique(n * 512, 512, n, 0);
    assert n % 0x8000_0000 == n;
  }

  /** So mapping a kernel address below 4 GiB writes into the 2-MiB page around it, and the address stays mapped to
      itself. */
  lemma BootMapHit(mem: Memory, b: nat, v: nat, phys: Word, flags: Word)
    requires b + 6 <= Pmm.MAX_PAGES <= |mem| && v < 0x1_0000_0000 && !(b <= v / LARGE * 512 < b + 6)
    ensures MeetsLargePage(BootMemory(mem, b), b, v)
    ensures var m, f := BootMemory(mem, b), v / LARGE * 512;
            && f == WalkFrame(m, b, v, 3) < |m|
            && var m' := Store(WalkMarked(m, b, v, flags), f, Index(3, v), LeafEntry(phys, flags));
            && m'[f] == m[f][Index(3, v) := LeafEntry(phys, flags)] && Translate(m', b, v) == Some(v)
  {
    hide BootMemory, Translate, WalkMarked, LeafEntry, Index, Store;
    BootPath(mem, b, v);
    BootIndices(v);
    BootIdentity(mem, b, v);
    LargePageHit(BootMemory(mem, b), b, v, phys, flags);
  }

  // ---------- a live table in the frame that is written ----------

  /** The boot tables and one space with root `s`, which has nothing mapped. */
  function OneSpace(mem: Memory, b: nat, s: nat, d: nat): (r: Memory)
    requires b + 6 <= Pmm.MAX_PAGES <= |mem| && s < Pmm.MAX_PAGES && d < Pmm.MAX_PAGES
    ensures |r| == |mem|
  {
    var m := BootMemory(mem, b);
    var a := m[s := m[b]];
    Store(a[d := a[b + 1][..4] + ZeroTable()[4..]], s, 0, TableEntry(d, 4))
  }

  /** Nothing but the boot frames makes the boot memory. */
  lemma StillBoot(mem: Memory, b: nat, m: Memory)
    requires b + 6 <= Pmm.MAX_PAGES <= |mem| && |m| == |mem|
    requires forall f | b <= f < b + 6 :: m[f] == BootMemory(mem, b)[f]
    ensures m == BootMemory(m, b)
  {
    hide Directory, Pointers, Pointer;
    BootFrames(mem, b);
    assert m[b + 2 + 0] == Directory(0) && m[b + 2 + 1] == Directory(1);
    assert m[b + 2 + 2] == Directory(2) && m[b + 2 + 3] == Directory(3);
  }

  lemma OneSpaceBoot(mem: Memory, b: nat, s: nat, d: nat)
    requires b + 6 <= Pmm.MAX_PAGES <= |mem| && s < Pmm.MAX_PAGES && d < Pmm.MAX_PAGES && s != d
    requires !(b <= s < b + 6) && !(b <= d < b + 6)
    ensures var m := OneSpace(mem, b, s, d); m == BootMemory(m, b) && m[s] == ZeroTable()[0 := TableEntry(d, 4)]
  {
    hide Directory, Pointers, Pointer, BootMemory, TableEntry;
    BootFrames(mem, b);
    StillBoot(mem, b, OneSpace(mem, b, s, d));
    assert ZeroTable()[0 := Pointer(b + 1)][0 := TableEntry(d, 4)] == ZeroTable()[0 := TableEntry(d, 4)];
  }

  lemma OneSpaceInvariant(mem: Memory, b: nat, s: nat, d: nat, free: set<nat>, ks: nat, ke: nat)
    requires b + 6 <= Pmm.MAX_PAGES <= |mem| && s in free && d in free && s != d
    requires forall f | f in free :: f < Pmm.MAX_PAGES && !(b <= f < b + 6) && !Reserved(f, ks, ke)
    ensures Invariant(OneSpace(mem, b, s, d), b, BootTables(b), map[s := NewTables(s, d)], free - {s, d}, ks, ke)
  {
    hide Invariant, Reserved, BootMemory, TableEntry, Pointers, Directory, Pointer;
    var m := BootMemory(mem, b);
    BootKernel(mem, b, free, ks, ke);
    BootFrames(mem, b);
    PointerBits(b + 1);
    CreationDone(m, OneSpace(mem, b, s, d), b, BootTables(b), map[], free, ks, ke, s, d);
    assert map[][s := NewTables(s, d)] == map[s := NewTables(s, d)];
  }

  const FLAGS: Word := 3

  /** The addresses of the last entry of a root. */
  const HIGH: nat := 511 * 0x80_0000_0000

  lemma OnPath(mem: Memory, root: nat, v: nat)
    requires MeetsLargePage(mem, root, v)
    ensures PresentPath(mem, root, v)
  {
  }

  /** Without the user flag nothing is marked. */
  lemma NothingMarked(mem: Memory, root: nat, v: nat)
    requires PresentPath(mem, root, v)
    ensures WalkMarked(mem, root, v, FLAGS) == mem
  {
    hide Index, Frame, Present, WalkFrame;
    assert !User(FLAGS);
  }

  lemma HighAddress(x: nat)
    requires x < 0x1_0000_0000
    ensures var u := HIGH + x;
            && Index(0, u) == 511 && Index(1, u) == Index(1, x) && Index(2, u) == Index(2, x)
            && u % LARGE == x % LARGE && u % PAGE_SIZE == x % PAGE_SIZE && u % 0x4000_0000 == x % 0x4000_0000
            && Index(3, u) == Index(3, x)
  {
    var u := HIGH + x;
    ModUnique(u, 0x80_0000_0000, 511, x);
    HighPart(x, 0x4000_0000, 1);
    HighPart(x, LARGE, 512);
    HighPart(x, PAGE_SIZE, 512 * 512);
  }

  lemma HighPart(x: nat, m: nat, k: nat)
    requires (m == 0x4000_0000 && k == 1) || (m == LARGE && k == 512) || (m == PAGE_SIZE && k == 512 * 512)
    ensures var u := HIGH + x; u / m % 512 == x / m % 512 && u % m == x % m
  {
    var u, q, t := HIGH + x, x / m, x % m;
    ModUnique(u, m, 511 * 512 * k + q, t);
    ModUnique(u / m, 512, 511 * k + q / 512, q % 512);
  }

  /** Walks below the root look at the low bits only. */
  lemma LowBitsWalk(mem: Memory, f: nat, u: nat, x: nat)
    requires Index(1, u) == Index(1, x) && Index(2, u) == Index(2, x) && Index(3, u) == Index(3, x)
    requires u % LARGE == x % LARGE && u % PAGE_SIZE == x % PAGE_SIZE && u % 0x4000_0000 == x % 0x4000_0000
    ensures HwFrom(mem, f, 1, u) == HwFrom(mem, f, 1, x)
  {
    hide Index, Present, Huge, HwFrame;
    var w := Load(mem, f, Index(1, u));
    var f2 := HwFrame(w);
    var w2 := Load(mem, f2, Index(2, u));
    var f3 := HwFrame(w2);
    assert HwFrom(mem, f3, 3, u) == HwFrom(mem, f3, 3, x);
    assert HwFrom(mem, f2, 2, u) == HwFrom(mem, f2, 2, x);
  }

  /**
    * The root of the space lies in the first frame of a 2-MiB page, as it does at address 0x0A000000. Mapping a kernel
    * address in that page then writes into the root: addresses that the space did not translate lead into the kernel's
    * tables, and the ownership invariant is lost.
    */
  lemma TableHit(mem: Memory, b: nat, v: nat, s: nat, d: nat, free: set<nat>, ks: nat, ke: nat, x: nat)
    returns (m: Memory, m': Memory)
    requires b + 6 <= Pmm.MAX_PAGES <= |mem| && v < 0x1_0000_0000 && Index(3, v) == 511 && x < 0x1_0000_0000
    requires s == v / LARGE * 512 && s in free && d in free && d != s
    requires forall f | f in free :: f < Pmm.MAX_PAGES && !(b <= f < b + 6) && !Reserved(f, ks, ke)
    ensures m == OneSpace(mem, b, s, d) && MeetsLargePage(m, b, v) && WalkFrame(m, b, v, 3) == s
    ensures Invariant(m, b, BootTables(b), map[s := NewTables(s, d)], free - {s, d}, ks, ke)
    ensures !NoTable(BootTables(b), map[s := NewTables(s, d)], s)
    ensures PresentPath(m, b, v) && WalkMarked(m, b, v, FLAGS) == m
    ensures s < |m| && m' == Store(m, s, 511, LeafEntry((b + 1) * PAGE_SIZE, FLAGS))
    ensures Translate(m, s, HIGH + x) == None && Translate(m', s, HIGH + x) == Some(x)
    ensures !Invariant(m', b, BootTables(b), map[s := NewTables(s, d)], free - {s, d}, ks, ke)
  {
    hide Invariant, OneSpace, BootMemory, MeetsLargePage, WalkMarked, LeafEntry, Index, Reserved, Translate, BootTables,
         NewTables, Store;
    m := OneSpace(mem, b, s, d);
    OneSpaceInvariant(mem, b, s, d, free, ks, ke);
    OneSpaceBoot(mem, b, s, d);
    BootPath(m, b, v);
    OnPath(m, b, v);
    NothingMarked(m, b, v);
    m' := Store(m, s, 511, LeafEntry((b + 1) * PAGE_SIZE, FLAGS));
    RootIsTable(s, d);
    assert s in map[s := NewTables(s, d)];
    HighEntry(m, b, s, d, x);
    EntryUnshared(m, b, s, d, free, ks, ke);
  }

  lemma RootIsTable(s: nat, d: nat)
    ensures s in NewTables(s, d).Values
  {
    assert NewTables(s, d)[Root] == s;
  }

  /** Entry 511 of the root led nowhere, and now leads into the kernel's second-level table. */
  lemma HighEntry(m: Memory, b: nat, s: nat, d: nat, x: nat)
    requires b + 6 <= Pmm.MAX_PAGES <= |m| && s < Pmm.MAX_PAGES && d < Pmm.MAX_PAGES && !(b <= s < b + 6)
    requires m == BootMemory(m, b) && m[s] == ZeroTable()[0 := TableEntry(d, 4)] && x < 0x1_0000_0000
    ensures var u := HIGH + x;
            var m' := Store(m, s, 511, LeafEntry((b + 1) * PAGE_SIZE, FLAGS));
            Translate(m, s, u) == None && Translate(m', s, u) == Some(x)
  {
    hide BootMemory, LeafEntry, Index, TableEntry, Present, Huge, HwFrame, Pointers, Directory, Pointer;
    var u := HIGH + x;
    var e := LeafEntry((b + 1) * PAGE_SIZE, FLAGS);
    var m' := Store(m, s, 511, e);
    HighAddress(x);
    ZeroEntry();
    assert m[s][511] == 0;
    PointingEntry(b);
    StillBoot(m, b, m');
    BootIdentity(m', b, x);
    BootIndices(x);
    BootFrames(m', b);
    PointerBits(b + 1);
    SmallFrame(Pointer(b + 1));
    assert Load(m', b, 0) == Pointer(b + 1);
    assert HwFrom(m', b, 0, x) == HwFrom(m', b + 1, 1, x);
    LowBitsWalk(m', b + 1, u, x);
    assert Load(m', s, 511) == e;
    assert HwFrom(m', s, 0, u) == HwFrom(m', b + 1, 1, u);
  }

  lemma PointingEntry(b: nat)
    requires b + 1 < Pmm.MAX_PAGES
    ensures var e := LeafEntry((b + 1) * PAGE_SIZE, FLAGS); Present(e) && HwFrame(e) == Frame(e) == b + 1
  {
    hide LeafEntry;
    LeafEntryBits((b + 1) * PAGE_SIZE, FLAGS);
    LeafAddressExact((b + 1) * PAGE_SIZE, FLAGS);
  }

  /** The space then has an entry that the kernel does not share. */
  lemma EntryUnshared(m: Memory, b: nat, s: nat, d: nat, free: set<nat>, ks: nat, ke: nat)
    requires b + 6 <= Pmm.MAX_PAGES <= |m| && s < |m|
    ensures var m' := Store(m, s, 511, LeafEntry((b + 1) * PAGE_SIZE, FLAGS));
            !Invariant(m', b, BootTables(b), map[s := NewTables(s, d)], free - {s, d}, ks, ke)
  {
    hide LeafEntry, Tree, Present, Frame, Owned, KernelOk, NoLargePages;
    var e := LeafEntry((b + 1) * PAGE_SIZE, FLAGS);
    var m', spaces := Store(m, s, 511, e), map[s := NewTables(s, d)];
    PointingEntry(b);
    assert NewTables(s, d)[Root] == s && m'[s][511] == e && Sub(Root, 511) !in BootTables(b);
    assert !Shared(m', NewTables(s, d), BootTables(b), Root, 511) && !Covers(Private, Root, 511);
    assert s in spaces && spaces[s] == NewTables(s, d);
  }
}
