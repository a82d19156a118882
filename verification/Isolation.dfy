/** What user mode can reach in a created space outside its user area: nothing that the kernel's own entries forbid. */
module Isolation {
  import opened Words
  import opened PageTables
  import opened AddressSpaces
  import opened Rights
  import opened BootMap
  import Pmm

  /** A table of the kernel grants a right below it only if the page's own entry, as the kernel's walk finds it,
      does. */
  lemma KernelTable(mem: Memory, kernelRoot: nat, kernelTables: Tables, v: nat, d: nat, a: Right)
    requires Tree(mem, kernelRoot, kernelTables, Whole) && d <= 2 && PathTo(v, d) in kernelTables
    ensures PathTo(v, 0) in kernelTables && kernelTables[PathTo(v, 0)] == kernelRoot
    ensures Granted(mem, kernelTables[PathTo(v, d)], d, v, a) ==> PageGives(mem, kernelRoot, 0, v, a)
  {
    hide Linking, Injective, Index, Granted, PageGives;
    assert PathTo(v, 0) == Root;
    GrantedPage(mem, kernelTables[PathTo(v, d)], d, v, a);
    if d == 2 {
      assert PathTo(v, 2).parent == PathTo(v, 1);
      PageStep(mem, kernelRoot, kernelTables, Whole, v, 1, a);
    }
    if d >= 1 {
      PageStep(mem, kernelRoot, kernelTables, Whole, v, 0, a);
    }
  }

  /** An entry of a space that leads into the kernel's tables. */
  lemma SharedGrant(mem: Memory, tab: Tables, kernelRoot: nat, kernelTables: Tables, p: Pos, v: nat, d: nat, a: Right)
    requires Tree(mem, kernelRoot, kernelTables, Whole) && p in tab && tab[p] < |mem| && d < 2 && Depth(p) == d
    requires Sub(p, Index(d, v)) == PathTo(v, d + 1) && Shared(mem, tab, kernelTables, p, Index(d, v))
    requires d >= 1 ==> !LargePage(mem[tab[p]][Index(d, v)])
    ensures Granted(mem, tab[p], d, v, a) ==> PageGives(mem, kernelRoot, 0, v, a)
  {
    hide Linking, Injective, Index, PageGives, Gives, Present, Huge, Frame, HwFrame;
    var w := mem[tab[p]][Index(d, v)];
    assert Load(mem, tab[p], Index(d, v)) == w;
    if Granted(mem, tab[p], d, v, a) {
      assert IsTable(d, w);
      assert kernelTables[PathTo(v, d + 1)] < Pmm.MAX_PAGES;
      FrameHw(w);
      KernelTable(mem, kernelRoot, kernelTables, v, d + 1, a);
    }
  }

  /** Outside the user area a space grants nothing that the kernel's own entry for the page does not, unless the space
      has a 1-GiB page there. */
  lemma OutOfReach(mem: Memory, s: nat, tab: Tables, kernelRoot: nat, kernelTables: Tables, v: nat, a: Right)
    requires SpaceOk(mem, s, tab, kernelTables) && Tree(mem, kernelRoot, kernelTables, Whole) && !InRegion(Private, v)
    requires Index(0, v) == 0 ==> !LargePage(mem[tab[Sub(Root, 0)]][Index(1, v)])
    requires !PageGives(mem, kernelRoot, 0, v, a)
    ensures !Granted(mem, s, 0, v, a)
  {
    hide Linking, Injective, Index, PageGives, Gives, Present, Huge, Frame, HwFrame, NoLargePages, Granted;
    PathIndices(v);
    assert PathTo(v, 1) == Sub(Root, Index(0, v)) && PathTo(v, 2) == Sub(PathTo(v, 1), Index(1, v)) by {
      FirstSteps(v);
    }
    assert tab[Root] == s < |mem|;
    if Index(0, v) != 0 {
      assert Shared(mem, tab, kernelTables, Root, Index(0, v));
      SharedGrant(mem, tab, kernelRoot, kernelTables, Root, v, 0, a);
    } else {
      assert Shared(mem, tab, kernelTables, Sub(Root, 0), Index(1, v));
      SharedGrant(mem, tab, kernelRoot, kernelTables, Sub(Root, 0), v, 1, a);
      FirstEntry(mem, s, tab, v, a);
    }
  }

  lemma FirstSteps(v: nat)
    ensures PathTo(v, 1) == Sub(Root, Index(0, v)) && PathTo(v, 2) == Sub(PathTo(v, 1), Index(1, v))
  {
    hide Index;
    assert PathTo(v, 0) == Root;
  }

  lemma FirstEntry(mem: Memory, s: nat, tab: Tables, v: nat, a: Right)
    requires Tree(mem, s, tab, Private) && Sub(Root, 0) in tab && Index(0, v) == 0
    ensures Granted(mem, s, 0, v, a) ==> Granted(mem, tab[Sub(Root, 0)], 1, v, a)
  {
    hide Injective, Index, Gives, Present, Huge;
    assert Linked(mem, tab, Root, 0);
    assert tab[Sub(Root, 0)] < Pmm.MAX_PAGES;
    FrameHw(mem[s][0]);
  }

  // ---------- the tables of the boot code ----------

  /** The boot code gives user mode no page. */
  lemma BootForbids(mem: Memory, b: nat, v: nat)
    requires b + 6 <= Pmm.MAX_PAGES <= |mem|
    ensures !PageGives(BootMemory(mem, b), b, 0, v, UserMode)
  {
    hide Present, Huge, BootMemory, Directory, Pointers, Pointer, Index, Gives;
    var m := BootMemory(mem, b);
    BootFrames(mem, b);
    ZeroAbsent();
    if Index(0, v) == 0 {
      PointerBits(b + 1);
      FrameHw(Pointer(b + 1));
      assert Load(m, b, Index(0, v)) == Pointer(b + 1);
      PointersAt(b, Index(1, v));
      assert Load(m, b + 1, Index(1, v)) == Pointers(b)[Index(1, v)];
      if Index(1, v) < 4 {
        DirectoryForbids(m, b, v);
      }
    }
  }

  lemma DirectoryForbids(m: Memory, b: nat, v: nat)
    requires b + 6 <= Pmm.MAX_PAGES <= |m| && Index(1, v) < 4
    requires Load(m, b + 1, Index(1, v)) == Pointer(b + 2 + Index(1, v))
    requires m[b + 2 + Index(1, v)] == Directory(Index(1, v))
    ensures !PageGives(m, b + 1, 1, v, UserMode)
  {
    hide Present, Huge, Pointer, Index, Gives;
    var k, i := Index(1, v), Index(2, v);
    PointerBits(b + 2 + k);
    FrameHw(Pointer(b + 2 + k));
    LargeBits(k * 512 + i);
    assert Load(m, b + 2 + k, i) == (k * 512 + i) * LARGE + 0x83;
    NoUserBit(k * 512 + i);
  }

  lemma NoUserBit(n: nat)
    requires n < 2048
    ensures var w: Word := n * LARGE + 0x83; !Gives(w, UserMode)
  {
    var w: Word := n * LARGE + 0x83;
    ModUnique(w, 4, n * 0x8_0000 + 0x20, 3);
    ModUnique(w / 4, 2, n * 0x4_0000 + 0x10, 0);
  }

  /** So with the tables of the boot code user mode reaches nothing in a created space outside the user area. */
  lemma KernelOutOfReach(mem: Memory, b: nat, s: nat, tab: Tables, v: nat)
    requires b + 6 <= Pmm.MAX_PAGES <= |mem| && mem == BootMemory(mem, b)
    requires Tree(mem, b, BootTables(b), Whole) && SpaceOk(mem, s, tab, BootTables(b)) && !InRegion(Private, v)
    requires Index(0, v) == 0 ==> !LargePage(mem[tab[Sub(Root, 0)]][Index(1, v)])
    ensures !Granted(mem, s, 0, v, UserMode)
  {
    hide Linking, Injective, Index, PageGives, SpaceOk, Granted, BootMemory, BootTables, LargePage, InRegion;
    BootForbids(mem, b, v);
    OutOfReach(mem, s, tab, b, BootTables(b), v, UserMode);
  }
}
