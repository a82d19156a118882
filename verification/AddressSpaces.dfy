/** All address spaces together: what one operation on one of them means for the others.
    These are facts about memory contents and ownership records; the methods of `Vmm.MemoryManager` rest on them. */
module AddressSpaces {
  import opened Options
  import opened Words
  import opened PageTables
  import Pmm

  /** A created space: a private tree over [4 GiB, 512 GiB) without large pages, whose remaining entries lead into
      kernel tables. */
  ghost predicate SpaceOk(mem: Memory, root: nat, tab: Tables, kernelTables: Tables) {
    && Tree(mem, root, tab, Private) && Sub(Root, 0) in tab
    && NoLargePages(mem, tab)
    && SharedEntries(mem, tab, kernelTables)
  }

  ghost predicate NoLargePages(mem: Memory, tab: Tables)
    requires Bounded(tab, |mem|)
  {
    forall p, x: nat | p in tab && x < ENTRIES && Depth(p) < 3 && Covers(Private, p, x) :: !LargePage(mem[tab[p]][x])
  }

  ghost predicate SharedEntries(mem: Memory, tab: Tables, kernelTables: Tables)
    requires Bounded(tab, |mem|)
  {
    forall p, x: nat | p in tab && x < ENTRIES && !Covers(Private, p, x) :: Shared(mem, tab, kernelTables, p, x)
  }

  /** Entry `x` of the table at `p` points to the kernel's table at the same place, if it points to a table. */
  ghost predicate Shared(mem: Memory, tab: Tables, kernelTables: Tables, p: Pos, x: nat)
    requires p in tab && tab[p] < |mem| && x < ENTRIES
  {
    var w := mem[tab[p]][x];
    IsTable(Depth(p), w) ==> Sub(p, x) in kernelTables && Frame(w) == kernelTables[Sub(p, x)]
  }

  ghost predicate Reserved(f: nat, ks: nat, ke: nat) {
    Pmm.PageIsReserved(f * PAGE_SIZE, ks, ke)
  }

  /** The frames of a space are its own: not free, not the kernel's, and never reserved. */
  ghost predicate Owned(tab: Tables, kernelTables: Tables, free: set<nat>, ks: nat, ke: nat) {
    && tab.Values !! free && tab.Values !! kernelTables.Values
    && forall f | f in tab.Values :: !Reserved(f, ks, ke)
  }

  ghost predicate PairwiseDisjoint(spaces: map<nat, Tables>) {
    forall a, b | a in spaces && b in spaces && a != b :: spaces[a].Values !! spaces[b].Values
  }

  ghost predicate KernelOk(mem: Memory, kernelRoot: nat, kernelTables: Tables, free: set<nat>) {
    Tree(mem, kernelRoot, kernelTables, Whole) && Sub(Root, 0) in kernelTables && kernelTables.Values !! free
  }

  /** The ownership invariant over memory, the kernel's tables, the live spaces and the free set. */
  ghost predicate Invariant(mem: Memory, kernelRoot: nat, kernelTables: Tables, spaces: map<nat, Tables>,
                            free: set<nat>, ks: nat, ke: nat) {
    && |mem| >= Pmm.MAX_PAGES
    && KernelOk(mem, kernelRoot, kernelTables, free)
    && (forall s | s in spaces :: SpaceOk(mem, s, spaces[s], kernelTables))
    && (forall s | s in spaces :: Owned(spaces[s], kernelTables, free, ks, ke))
    && PairwiseDisjoint(spaces)
  }

  /** Tables move from the free set into the tree; nothing is lost and nothing is shared. */
  ghost predicate FramesConserved(free: set<nat>, free': set<nat>, tab: Tables, tab': Tables) {
    && free' + tab'.Values == free + tab.Values
    && free' !! tab'.Values
    && free' <= free
  }

  ghost predicate SameEverywhere(mem: Memory, mem': Memory, root: nat) {
    forall v: nat :: Translate(mem', root, v) == Translate(mem, root, v)
  }

  /** No table of a space is part of the kernel's heap, of the first MiB or of a screen buffer. */
  lemma TablesClear(mem: Memory, kernelRoot: nat, kernelTables: Tables, spaces: map<nat, Tables>, free: set<nat>,
                    ks: nat, ke: nat, s: nat, f: nat)
    requires Invariant(mem, kernelRoot, kernelTables, spaces, free, ks, ke) && s in spaces && f in spaces[s].Values
    ensures Pmm.ClearOfHeap(f * PAGE_SIZE, f * PAGE_SIZE + PAGE_SIZE)
    ensures !Pmm.Meets(f, 0, 0x10_0000) && !Pmm.Meets(f, 0x0100_0000, 0x0200_0000)
  {
    hide Injective, Linking, NoLargePages, SharedEntries, KernelOk, Pmm.PageIsReserved, Pmm.ClearOfHeap, Pmm.Meets;
    assert Owned(spaces[s], kernelTables, free, ks, ke) && SpaceOk(mem, s, spaces[s], kernelTables);
    Pmm.PageClear(f, ks, ke);
    Pmm.OutOfBounds(f, ks, ke);
  }

  // ---------- addresses outside the user area ----------

  /** Outside the user area a space reaches only kernel tables, through entries that its own mappings leave alone. */
  lemma SharedWalk(mem: Memory, mem': Memory, s: nat, tab: Tables, tab': Tables, kernelRoot: nat,
                   kernelTables: Tables, v: nat)
    requires SpaceOk(mem, s, tab, kernelTables) && Tree(mem', s, tab', Private) && Extends(tab, tab') && |mem'| == |mem|
    requires Tree(mem, kernelRoot, kernelTables, Whole)
    requires forall p | p in kernelTables :: mem'[kernelTables[p]] == mem[kernelTables[p]]
    requires forall p, x: nat | p in tab && x < ENTRIES && !Covers(Private, p, x) :: mem'[tab[p]][x] == mem[tab[p]][x]
    requires !InRegion(Private, v)
    ensures Translate(mem', s, v) == Translate(mem, s, v)
  {
    hide Present, Huge, Index, Injective, NoLargePages;
    FrameTree(mem, mem', kernelRoot, kernelTables, Whole);
    PathIndices(v);
    assert PathTo(v, 0) == Root && PathTo(v, 1) == Sub(Root, Index(0, v))
        && PathTo(v, 2) == Sub(PathTo(v, 1), Index(1, v));
    if Index(0, v) != 0 {
      assert Shared(mem, tab, kernelTables, Root, Index(0, v));
      SharedEntryWalk(mem, mem', kernelRoot, kernelTables, s, 0, v);
    } else {
      assert Linked(mem, tab, Root, 0) && Linked(mem', tab', Root, 0);
      assert Shared(mem, tab, kernelTables, Sub(Root, 0), Index(1, v));
      SharedEntryWalk(mem, mem', kernelRoot, kernelTables, tab[Sub(Root, 0)], 1, v);
      FrameHw(mem[s][0]);
      FrameHw(mem'[s][0]);
    }
  }

  lemma FrameHw(w: Word)
    requires Frame(w) < Pmm.MAX_PAGES
    ensures HwFrame(w) == Frame(w)
  {
  }

  /** A walk that continues, after one unchanged entry, in unchanged kernel tables. */
  lemma SharedEntryWalk(mem: Memory, mem': Memory, kernelRoot: nat, kernelTables: Tables, f: nat, d: nat, v: nat)
    requires Tree(mem, kernelRoot, kernelTables, Whole) && Tree(mem', kernelRoot, kernelTables, Whole)
    requires |mem'| == |mem|
    requires forall p | p in kernelTables :: mem'[kernelTables[p]] == mem[kernelTables[p]]
    requires d < 2 && f < |mem| && mem'[f][Index(d, v)] == mem[f][Index(d, v)]
    requires var w := mem[f][Index(d, v)];
             IsTable(d, w) ==> PathTo(v, d + 1) in kernelTables && Frame(w) == kernelTables[PathTo(v, d + 1)]
    ensures HwFrom(mem', f, d, v) == HwFrom(mem, f, d, v)
  {
    hide Present, Huge, Index, Injective, Shape, Linking;
    var w := mem[f][Index(d, v)];
    if IsTable(d, w) {
      assert kernelTables[PathTo(v, d + 1)] < Pmm.MAX_PAGES;
      FrameHw(w);
      KeptWalk(mem, mem', kernelRoot, kernelTables, kernelTables, Whole, v, d + 1);
    }
  }

  // ---------- a space that nobody touched ----------

  lemma SpaceUntouched(mem: Memory, mem': Memory, s: nat, tab: Tables, kernelRoot: nat, kernelTables: Tables)
    requires SpaceOk(mem, s, tab, kernelTables) && Tree(mem, kernelRoot, kernelTables, Whole) && |mem'| == |mem|
    requires forall p | p in tab :: mem'[tab[p]] == mem[tab[p]]
    requires forall p | p in kernelTables :: mem'[kernelTables[p]] == mem[kernelTables[p]]
    ensures SpaceOk(mem', s, tab, kernelTables) && SameEverywhere(mem, mem', s)
  {
    hide Shape, Injective, Linking, LargePage, IsTable, Frame, Covers, InRegion;
    FrameTree(mem, mem', s, tab, Private);
    forall p, x: nat | p in tab && x < ENTRIES && !Covers(Private, p, x)
      ensures Shared(mem', tab, kernelTables, p, x)
    {
      assert Shared(mem, tab, kernelTables, p, x);
    }
    forall v: nat
      ensures Translate(mem', s, v) == Translate(mem, s, v)
    {
      if !InRegion(Private, v) {
        SharedWalk(mem, mem', s, tab, tab, kernelRoot, kernelTables, v);
      }
    }
  }

  lemma KernelUntouched(mem: Memory, mem': Memory, kernelRoot: nat, kernelTables: Tables)
    requires Tree(mem, kernelRoot, kernelTables, Whole) && |mem'| == |mem|
    requires forall p | p in kernelTables :: mem'[kernelTables[p]] == mem[kernelTables[p]]
    ensures Tree(mem', kernelRoot, kernelTables, Whole) && SameEverywhere(mem, mem', kernelRoot)
  {
    hide Tree;
    FrameTree(mem, mem', kernelRoot, kernelTables, Whole);
    assert forall v: nat :: InRegion(Whole, v);
  }

  // ---------- an operation inside the user area of one space ----------

  /** The frames of a grown tree were its own before or were free. */
  lemma GrownFrames(free: set<nat>, free': set<nat>, tab: Tables, tab': Tables, other: set<nat>)
    requires FramesConserved(free, free', tab, tab') && other !! free && other !! tab.Values
    ensures other !! tab'.Values && other !! free'
  {
  }

  lemma ConfinedFrames(mem: Memory, mem': Memory, tab: Tables, tab': Tables, r: Region, other: Tables)
    requires Confined(mem, mem', tab, tab', r) && Bounded(other, |mem|) && other.Values !! tab'.Values
    ensures |mem'| == |mem| && forall p | p in other :: mem'[other[p]] == mem[other[p]]
  {
    hide Covers;
    assert forall p | p in other :: other[p] in other.Values;
  }

  lemma SpaceChanged(mem: Memory, mem': Memory, kernelRoot: nat, kernelTables: Tables, root: nat, tab: Tables,
                     tab': Tables)
    requires Tree(mem, kernelRoot, kernelTables, Whole) && SpaceOk(mem, root, tab, kernelTables)
    requires Tree(mem', root, tab', Private) && Grows(mem, mem', tab, tab', Private)
    requires forall p | p in kernelTables :: mem'[kernelTables[p]] == mem[kernelTables[p]]
    ensures SpaceOk(mem', root, tab', kernelTables)
    ensures forall v: nat | !InRegion(Private, v) :: Translate(mem', root, v) == Translate(mem, root, v)
  {
    hide Injective, Linking, IsTable, Frame, LargePage, InRegion;
    forall p, x: nat | p in tab' && x < ENTRIES && !Covers(Private, p, x)
      ensures Shared(mem', tab', kernelTables, p, x)
    {
      assert p in tab by { UncoveredPlaces(tab', root, p, x); }
      assert Shared(mem, tab, kernelTables, p, x);
    }
    forall v: nat | !InRegion(Private, v)
      ensures Translate(mem', root, v) == Translate(mem, root, v)
    {
      SharedWalk(mem, mem', root, tab, tab', kernelRoot, kernelTables, v);
    }
  }

  lemma UncoveredPlaces(tab: Tables, root: nat, p: Pos, x: nat)
    requires Shape(tab, root, Private) && p in tab && !Covers(Private, p, x)
    ensures p == Root || p == Sub(Root, 0)
  {
  }

  lemma UserOperation(mem: Memory, mem': Memory, kernelRoot: nat, kernelTables: Tables, spaces: map<nat, Tables>,
                      free: set<nat>, free': set<nat>, ks: nat, ke: nat, root: nat, tab': Tables)
    requires Invariant(mem, kernelRoot, kernelTables, spaces, free, ks, ke) && root in spaces
    requires Tree(mem', root, tab', Private) && Grows(mem, mem', spaces[root], tab', Private)
    requires FramesConserved(free, free', spaces[root], tab') && forall f | f in free :: !Reserved(f, ks, ke)
    ensures Invariant(mem', kernelRoot, kernelTables, spaces[root := tab'], free', ks, ke)
    ensures SameEverywhere(mem, mem', kernelRoot)
    ensures forall s | s in spaces && s != root :: SameEverywhere(mem, mem', s)
    ensures forall v: nat | !InRegion(Private, v) :: Translate(mem', root, v) == Translate(mem, root, v)
  {
    hide Tree, SpaceOk, Confined, NoNewLargePage, SameEverywhere, InRegion, Extends, Reserved;
    var tab := spaces[root];
    assert Owned(tab, kernelTables, free, ks, ke) && SpaceOk(mem, root, tab, kernelTables);
    GrownFrames(free, free', tab, tab', kernelTables.Values);
    TreeBounded(mem, kernelRoot, kernelTables, Whole);
    ConfinedFrames(mem, mem', tab, tab', Private, kernelTables);
    KernelUntouched(mem, mem', kernelRoot, kernelTables);
    SpaceChanged(mem, mem', kernelRoot, kernelTables, root, tab, tab');
    forall s | s in spaces && s != root
      ensures SpaceOk(mem', s, spaces[s], kernelTables) && SameEverywhere(mem, mem', s)
      ensures spaces[s].Values !! tab'.Values && Owned(spaces[s], kernelTables, free', ks, ke)
    {
      OtherSpace(mem, mem', kernelRoot, kernelTables, spaces, free, free', ks, ke, root, tab', s);
    }
    assert Owned(tab', kernelTables, free', ks, ke);
  }

  lemma TreeBounded(mem: Memory, root: nat, tab: Tables, r: Region)
    requires Tree(mem, root, tab, r)
    ensures Bounded(tab, |mem|)
  {
  }

  lemma OtherSpace(mem: Memory, mem': Memory, kernelRoot: nat, kernelTables: Tables, spaces: map<nat, Tables>,
                   free: set<nat>, free': set<nat>, ks: nat, ke: nat, root: nat, tab': Tables, s: nat)
    requires Invariant(mem, kernelRoot, kernelTables, spaces, free, ks, ke) && root in spaces && s in spaces
    requires s != root
    requires Grows(mem, mem', spaces[root], tab', Private) && FramesConserved(free, free', spaces[root], tab')
    requires forall p | p in kernelTables :: mem'[kernelTables[p]] == mem[kernelTables[p]]
    ensures SpaceOk(mem', s, spaces[s], kernelTables) && SameEverywhere(mem, mem', s)
    ensures spaces[s].Values !! tab'.Values && Owned(spaces[s], kernelTables, free', ks, ke)
  {
    hide Tree, Confined, NoNewLargePage, SameEverywhere, NoLargePages, SharedEntries, Extends, Reserved;
    assert Owned(spaces[s], kernelTables, free, ks, ke) && spaces[s].Values !! spaces[root].Values;
    GrownFrames(free, free', spaces[root], tab', spaces[s].Values);
    assert SpaceOk(mem, s, spaces[s], kernelTables);
    TreeBounded(mem, s, spaces[s], Private);
    ConfinedFrames(mem, mem', spaces[root], tab', Private, spaces[s]);
    SpaceUntouched(mem, mem', s, spaces[s], kernelRoot, kernelTables);
  }

  // ---------- an operation on the kernel's own tables ----------

  lemma KernelOperation(mem: Memory, mem': Memory, kernelRoot: nat, kernelTables: Tables, kernelTables': Tables,
                        spaces: map<nat, Tables>,
                        free: set<nat>, free': set<nat>, ks: nat, ke: nat)
    requires Invariant(mem, kernelRoot, kernelTables, spaces, free, ks, ke)
    requires Tree(mem', kernelRoot, kernelTables', Whole) && Grows(mem, mem', kernelTables, kernelTables', Whole)
    requires FramesConserved(free, free', kernelTables, kernelTables')
    ensures Invariant(mem', kernelRoot, kernelTables', spaces, free', ks, ke)
    ensures forall s | s in spaces :: SameTranslation(mem, mem', s, Private)
  {
    hide Tree, Covers, NoNewLargePage, SameTranslation, SpaceOk, Reserved;
    forall s | s in spaces
      ensures SpaceOk(mem', s, spaces[s], kernelTables') && SameTranslation(mem, mem', s, Private)
      ensures Owned(spaces[s], kernelTables', free', ks, ke)
    {
      assert Owned(spaces[s], kernelTables, free, ks, ke) && SpaceOk(mem, s, spaces[s], kernelTables);
      GrownFrames(free, free', kernelTables, kernelTables', spaces[s].Values);
      SpaceBesideKernel(mem, mem', kernelTables, kernelTables', s, spaces[s]);
    }
  }

  lemma SpaceBesideKernel(mem: Memory, mem': Memory, kernelTables: Tables, kernelTables': Tables, s: nat, tab: Tables)
    requires SpaceOk(mem, s, tab, kernelTables) && Grows(mem, mem', kernelTables, kernelTables', Whole)
    requires tab.Values !! kernelTables'.Values
    ensures |mem'| == |mem| && SpaceOk(mem', s, tab, kernelTables') && SameTranslation(mem, mem', s, Private)
  {
    hide Shape, Injective, Linking, LargePage, IsTable, Frame, Covers, SameTranslation;
    ConfinedFrames(mem, mem', kernelTables, kernelTables', Whole, tab);
    FrameTree(mem, mem', s, tab, Private);
    forall p, x: nat | p in tab && x < ENTRIES && !Covers(Private, p, x)
      ensures Shared(mem', tab, kernelTables', p, x)
    {
      assert Shared(mem, tab, kernelTables, p, x);
    }
  }

  // ---------- a new space ----------

  /** Memory after `vmm_create_address_space`: the root copies the kernel's root but for entry 0, which leads to a
      private second-level table holding the kernel's first four entries. */
  ghost predicate Created(mem: Memory, mem': Memory, kernelRoot: nat, oldPdpt: nat, root: nat, pdpt: nat, entry: Word) {
    && |mem'| == |mem| && root < |mem| && pdpt < |mem| && kernelRoot < |mem| && oldPdpt < |mem|
    && (forall f | 0 <= f < |mem| && f != root && f != pdpt :: mem'[f] == mem[f])
    && mem'[root] == mem[kernelRoot][0 := entry]
    && mem'[pdpt] == mem[oldPdpt][..4] + ZeroTable()[4..]
  }

  function NewTables(root: nat, pdpt: nat): Tables {
    map[Root := root, Sub(Root, 0) := pdpt]
  }

  lemma CreatedSpace(mem: Memory, mem': Memory, kernelRoot: nat, kernelTables: Tables, free: set<nat>, root: nat,
                     pdpt: nat, entry: Word)
    requires KernelOk(mem, kernelRoot, kernelTables, free) && root in free && pdpt in free && root != pdpt
    requires Created(mem, mem', kernelRoot, kernelTables[Sub(Root, 0)], root, pdpt, entry)
    requires root < Pmm.MAX_PAGES && pdpt < Pmm.MAX_PAGES
    requires Present(entry) && !Huge(entry) && Frame(entry) == pdpt
    ensures SpaceOk(mem', root, NewTables(root, pdpt), kernelTables)
  {
    hide Present, Huge, Frame, Injective, Shape;
    var tab := NewTables(root, pdpt);
    assert kernelTables[Root] == kernelRoot by { RootFrame(mem, kernelRoot, kernelTables); }
    NewShape(root, pdpt);
    forall p, x: nat | p in tab && x < ENTRIES && Depth(p) < 3 && Covers(Private, p, x)
      ensures Linked(mem', tab, p, x) && !LargePage(mem'[tab[p]][x])
    {
      if p == Sub(Root, 0) {
        assert mem'[pdpt][x] == ZeroTable()[x];
        ZeroEntry();
      }
    }
    forall p, x: nat | p in tab && x < ENTRIES && !Covers(Private, p, x)
      ensures Shared(mem', tab, kernelTables, p, x)
    {
      assert Linked(mem, kernelTables, p, x);
    }
  }

  lemma ZeroEntry()
    ensures !Present(0)
  {
  }

  lemma RootFrame(mem: Memory, root: nat, tab: Tables)
    requires Tree(mem, root, tab, Whole)
    ensures Root in tab && tab[Root] == root
  {
  }

  lemma NewShape(root: nat, pdpt: nat)
    requires root != pdpt
    ensures Shape(NewTables(root, pdpt), root, Private) && Injective(NewTables(root, pdpt))
    ensures NewTables(root, pdpt).Values == {root, pdpt}
  {
    var tab := NewTables(root, pdpt);
    assert tab[Root] == root && tab[Sub(Root, 0)] == pdpt;
  }

  /** Outside the user area the new space translates as the kernel does; inside it nothing is mapped. */
  lemma CreatedTranslations(mem: Memory, mem': Memory, kernelRoot: nat, kernelTables: Tables, free: set<nat>,
                            root: nat, pdpt: nat, entry: Word, v: nat)
    requires KernelOk(mem, kernelRoot, kernelTables, free) && root in free && pdpt in free && root != pdpt
    requires Created(mem, mem', kernelRoot, kernelTables[Sub(Root, 0)], root, pdpt, entry)
    requires Present(entry) && Frame(entry) == pdpt < Pmm.MAX_PAGES
    ensures !InRegion(Private, v) ==> Translate(mem', root, v) == Translate(mem', kernelRoot, v)
    ensures InRegion(Private, v) ==> Translate(mem', root, v) == None
  {
    hide Present, Huge, Index, Injective, Frame, HwFrame;
    RootFrame(mem, kernelRoot, kernelTables);
    assert kernelTables[Root] in kernelTables.Values && kernelTables[Sub(Root, 0)] in kernelTables.Values;
    if Index(0, v) == 0 {
      assert Linked(mem, kernelTables, Root, 0);
      FrameHw(entry);
      FrameHw(mem[kernelRoot][0]);
      ZeroEntry();
      if Index(1, v) >= 4 {
        assert mem'[pdpt][Index(1, v)] == ZeroTable()[Index(1, v)];
      }
      assert HwFrom(mem', root, 0, v) == HwFrom(mem', pdpt, 1, v);
      assert HwFrom(mem', kernelRoot, 0, v) == HwFrom(mem', kernelTables[Sub(Root, 0)], 1, v);
    }
  }

  lemma CreateOperation(mem: Memory, mem': Memory, kernelRoot: nat, kernelTables: Tables, spaces: map<nat, Tables>,
                        free: set<nat>, ks: nat, ke: nat, root: nat, pdpt: nat, entry: Word)
    requires Invariant(mem, kernelRoot, kernelTables, spaces, free, ks, ke)
    requires forall f | f in free :: f < Pmm.MAX_PAGES && !Reserved(f, ks, ke)
    requires root in free && pdpt in free && root != pdpt && Present(entry) && !Huge(entry) && Frame(entry) == pdpt
    requires Created(mem, mem', kernelRoot, kernelTables[Sub(Root, 0)], root, pdpt, entry)
    ensures Invariant(mem', kernelRoot, kernelTables, spaces[root := NewTables(root, pdpt)],
                      free - {root, pdpt}, ks, ke)
    ensures root !in spaces
    ensures SameEverywhere(mem, mem', kernelRoot) && forall s | s in spaces :: SameEverywhere(mem, mem', s)
  {
    hide Present, Huge, Frame, SpaceOk, Reserved, Tree;
    CreatedSpace(mem, mem', kernelRoot, kernelTables, free, root, pdpt, entry);
    NewShape(root, pdpt);
    FreeFramesWritten(mem, mem', kernelRoot, kernelTables, spaces, free, ks, ke);
    if root in spaces {
      assert SpaceOk(mem, root, spaces[root], kernelTables) && Owned(spaces[root], kernelTables, free, ks, ke);
      RootIsOwn(mem, root, spaces[root], kernelTables);
    }
    forall s | s in spaces
      ensures spaces[s].Values !! {root, pdpt}
    {
      assert Owned(spaces[s], kernelTables, free, ks, ke);
    }
  }

  lemma RootIsOwn(mem: Memory, s: nat, tab: Tables, kernelTables: Tables)
    requires SpaceOk(mem, s, tab, kernelTables)
    ensures s in tab.Values
  {
    assert tab[Root] in tab.Values;
  }

  /** Writing to frames that hold no table disturbs nobody. */
  lemma OtherFramesWritten(mem: Memory, mem': Memory, kernelRoot: nat, kernelTables: Tables,
                           spaces: map<nat, Tables>, free: set<nat>, ks: nat, ke: nat, written: set<nat>)
    requires Invariant(mem, kernelRoot, kernelTables, spaces, free, ks, ke) && |mem'| == |mem|
    requires forall f | 0 <= f < |mem| && f !in written :: mem'[f] == mem[f]
    requires kernelTables.Values !! written && forall s | s in spaces :: spaces[s].Values !! written
    ensures Invariant(mem', kernelRoot, kernelTables, spaces, free, ks, ke)
    ensures SameEverywhere(mem, mem', kernelRoot) && forall s | s in spaces :: SameEverywhere(mem, mem', s)
  {
    hide Tree, SpaceOk, SameEverywhere, Reserved;
    TreeBounded(mem, kernelRoot, kernelTables, Whole);
    Elsewhere(mem, mem', kernelTables, written);
    KernelUntouched(mem, mem', kernelRoot, kernelTables);
    forall s | s in spaces
      ensures SpaceOk(mem', s, spaces[s], kernelTables) && SameEverywhere(mem, mem', s)
    {
      SpaceBounded(mem, s, spaces[s], kernelTables);
      Elsewhere(mem, mem', spaces[s], written);
      SpaceUntouched(mem, mem', s, spaces[s], kernelRoot, kernelTables);
    }
  }

  /** Writing to free frames, for one. */
  lemma FreeFramesWritten(mem: Memory, mem': Memory, kernelRoot: nat, kernelTables: Tables, spaces: map<nat, Tables>,
                          free: set<nat>, ks: nat, ke: nat)
    requires Invariant(mem, kernelRoot, kernelTables, spaces, free, ks, ke) && |mem'| == |mem|
    requires forall f | 0 <= f < |mem| && f !in free :: mem'[f] == mem[f]
    ensures Invariant(mem', kernelRoot, kernelTables, spaces, free, ks, ke)
    ensures SameEverywhere(mem, mem', kernelRoot) && forall s | s in spaces :: SameEverywhere(mem, mem', s)
  {
    hide Tree, SpaceOk, SameEverywhere, Reserved;
    forall s | s in spaces
      ensures spaces[s].Values !! free
    {
      assert Owned(spaces[s], kernelTables, free, ks, ke);
    }
    OtherFramesWritten(mem, mem', kernelRoot, kernelTables, spaces, free, ks, ke, free);
  }

  lemma SpaceBounded(mem: Memory, s: nat, tab: Tables, kernelTables: Tables)
    requires SpaceOk(mem, s, tab, kernelTables)
    ensures Bounded(tab, |mem|) && Tree(mem, s, tab, Private) && NoLargePages(mem, tab)
  {
  }

  lemma Elsewhere(mem: Memory, mem': Memory, tab: Tables, written: set<nat>)
    requires Bounded(tab, |mem|) && |mem'| == |mem| && tab.Values !! written
    requires forall f | 0 <= f < |mem| && f !in written :: mem'[f] == mem[f]
    ensures forall p | p in tab :: mem'[tab[p]] == mem[tab[p]]
  {
    assert forall p | p in tab :: tab[p] in tab.Values;
  }

  // ---------- changes that no walk looks at ----------

  /** The entries are present or not, end a walk or not, and point to the same frames. */
  ghost predicate Alike(mem: Memory, mem': Memory) {
    |mem'| == |mem| && forall f: nat, i: nat | f < |mem| && i < ENTRIES :: AlikeEntry(mem[f][i], mem'[f][i])
  }

  predicate AlikeEntry(w: Word, w': Word) {
    Frame(w') == Frame(w) && (Present(w') <==> Present(w)) && (Huge(w') <==> Huge(w))
  }

  lemma {:induction false} AlikeWalk(mem: Memory, mem': Memory, f: nat, d: nat, v: nat)
    requires Alike(mem, mem') && d <= 3
    ensures HwFrom(mem', f, d, v) == HwFrom(mem, f, d, v)
    decreases 3 - d
  {
    hide Alike, Present, Huge, Index, Frame, HwFrame;
    var w, w' := Load(mem, f, Index(d, v)), Load(mem', f, Index(d, v));
    AlikeLoads(mem, mem', f, Index(d, v));
    AlikeAddresses(w, w');
    if d < 3 {
      AlikeWalk(mem, mem', HwFrame(w), d + 1, v);
    }
  }

  lemma AlikeLoads(mem: Memory, mem': Memory, f: nat, i: nat)
    requires Alike(mem, mem') && i < ENTRIES
    ensures AlikeEntry(Load(mem, f, i), Load(mem', f, i))
  {
  }

  lemma AlikeAddresses(w: Word, w': Word)
    requires AlikeEntry(w, w')
    ensures HwFrame(w') == HwFrame(w) && w' / 0x4000_0000 == w / 0x4000_0000 && w' / 0x20_0000 == w / 0x20_0000
  {
    DivDiv(w, PAGE_SIZE, 512);
    DivDiv(w', PAGE_SIZE, 512);
    DivDiv(w, PAGE_SIZE, 0x4_0000);
    DivDiv(w', PAGE_SIZE, 0x4_0000);
  }

  lemma AlikeTree(mem: Memory, mem': Memory, root: nat, tab: Tables, r: Region)
    requires Alike(mem, mem') && Tree(mem, root, tab, r)
    ensures Tree(mem', root, tab, r)
  {
    hide Present, Huge, Frame, Covers, Shape, Injective;
    forall p, x: nat | p in tab && Depth(p) < 3 && x < ENTRIES && Covers(r, p, x)
      ensures Linked(mem', tab, p, x)
    {
      assert Linked(mem, tab, p, x);
      assert AlikeEntry(mem[tab[p]][x], mem'[tab[p]][x]);
    }
  }

  lemma AlikeSpace(mem: Memory, mem': Memory, s: nat, tab: Tables, kernelTables: Tables)
    requires Alike(mem, mem') && SpaceOk(mem, s, tab, kernelTables)
    ensures SpaceOk(mem', s, tab, kernelTables)
  {
    hide Present, Huge, Frame, Covers, Shape, Injective, Linking;
    AlikeTree(mem, mem', s, tab, Private);
    forall p, x: nat | p in tab && x < ENTRIES
      ensures LargePage(mem'[tab[p]][x]) ==> LargePage(mem[tab[p]][x])
      ensures Shared(mem, tab, kernelTables, p, x) ==> Shared(mem', tab, kernelTables, p, x)
    {
      assert AlikeEntry(mem[tab[p]][x], mem'[tab[p]][x]);
    }
  }

  /** Such a change keeps the invariant and every translation from any root. */
  lemma AlikeInvariant(mem: Memory, mem': Memory, kernelRoot: nat, kernelTables: Tables, spaces: map<nat, Tables>,
                       free: set<nat>, ks: nat, ke: nat)
    requires Alike(mem, mem') && Invariant(mem, kernelRoot, kernelTables, spaces, free, ks, ke)
    ensures Invariant(mem', kernelRoot, kernelTables, spaces, free, ks, ke)
    ensures forall root: nat :: SameEverywhere(mem, mem', root)
  {
    hide Alike, Tree, SpaceOk, Reserved, SameEverywhere;
    AlikeTree(mem, mem', kernelRoot, kernelTables, Whole);
    forall s | s in spaces
      ensures SpaceOk(mem', s, spaces[s], kernelTables)
    {
      AlikeSpace(mem, mem', s, spaces[s], kernelTables);
    }
    AlikeSize(mem, mem');
    forall root: nat
      ensures SameEverywhere(mem, mem', root)
    {
      AlikeRoot(mem, mem', root);
    }
  }

  lemma AlikeSize(mem: Memory, mem': Memory)
    requires Alike(mem, mem')
    ensures |mem'| == |mem|
  {
  }

  lemma AlikeRoot(mem: Memory, mem': Memory, root: nat)
    requires Alike(mem, mem')
    ensures SameEverywhere(mem, mem', root)
  {
    hide Alike, HwFrom;
    forall v: nat
      ensures Translate(mem', root, v) == Translate(mem, root, v)
    {
      AlikeWalk(mem, mem', root, 0, v);
    }
  }

  // ---------- a destroyed space ----------

  lemma DestroyOperation(mem: Memory, kernelRoot: nat, kernelTables: Tables, spaces: map<nat, Tables>,
                         free: set<nat>, ks: nat, ke: nat, root: nat)
    requires Invariant(mem, kernelRoot, kernelTables, spaces, free, ks, ke) && root in spaces
    ensures Invariant(mem, kernelRoot, kernelTables, spaces - {root}, free + spaces[root].Values, ks, ke)
  {
    hide Tree, SpaceOk, Reserved;
    assert Owned(spaces[root], kernelTables, free, ks, ke);
  }

  // ---------- what a space shares with the kernel ----------

  /** Whatever the kernel maps through a table that a space shares, the space sees. */
  lemma SharedWithKernel(mem: Memory, s: nat, tab: Tables, kernelRoot: nat, kernelTables: Tables, v: nat)
    requires SpaceOk(mem, s, tab, kernelTables) && Tree(mem, kernelRoot, kernelTables, Whole) && !InRegion(Private, v)
    requires if Index(0, v) != 0 then IsTable(0, mem[s][Index(0, v)])
             else IsTable(1, mem[tab[Sub(Root, 0)]][Index(1, v)])
    ensures Translate(mem, s, v) == Translate(mem, kernelRoot, v)
  {
    hide Present, Huge, Index, Injective, Frame, HwFrame, NoLargePages;
    assert PathTo(v, 0) == Root && PathTo(v, 1) == Sub(Root, Index(0, v))
        && PathTo(v, 2) == Sub(PathTo(v, 1), Index(1, v));
    HwStep(mem, kernelRoot, kernelTables, Whole, v, 0);
    if Index(0, v) != 0 {
      assert Shared(mem, tab, kernelTables, Root, Index(0, v));
      FrameHw(mem[s][Index(0, v)]);
    } else {
      assert Linked(mem, tab, Root, 0);
      assert Shared(mem, tab, kernelTables, Sub(Root, 0), Index(1, v));
      HwStep(mem, kernelRoot, kernelTables, Whole, v, 1);
      FrameHw(mem[s][0]);
      FrameHw(mem[tab[Sub(Root, 0)]][Index(1, v)]);
    }
  }

  lemma KernelEntry(f: nat)
    requires f < Pmm.MAX_PAGES
    ensures var w: Word := f * PAGE_SIZE + 3; Present(w) && !Huge(w) && Frame(w) == f
  {
    var w: Word := f * PAGE_SIZE + 3;
    assert w == 128 * (f * 32) + 3;
    assert w / 128 == f * 32;
  }
}
