/** Starting a user process and ending a thread (sched.c), over the allocators and the two tables. */
module Processes {
  import opened Options
  import opened Words
  import opened PageTables
  import opened AddressSpaces
  import opened Rights
  import opened Vmm
  import Pmm
  import Scheduler
  import WindowOrder
  import Windows

  /** Where the program and its stack are mapped, and how. */
  const CODE: nat := 0x1_0000_0000
  const STACK: nat := 0x1_0000_1000
  const FLAGS: Word := 7

  // ---------- what a process sees ----------

  /** The kernel outside the user area, and inside it the pages that are there. */
  function Seen(mem: Memory, kernelRoot: nat, code: Option<nat>, stack: Option<nat>, v: nat): Option<nat> {
    if !InRegion(Private, v) then Translate(mem, kernelRoot, v)
    else if SamePage(CODE, v) && code.Some? then Some(code.value + v % PAGE_SIZE)
    else if SamePage(STACK, v) && stack.Some? then Some(stack.value + v % PAGE_SIZE)
    else None
  }

  ghost predicate View(mem: Memory, root: nat, kernelRoot: nat, code: Option<nat>, stack: Option<nat>) {
    forall v: nat :: Translate(mem, root, v) == Seen(mem, kernelRoot, code, stack, v)
  }

  /** User mode may read, write and run the page. */
  ghost predicate UserPage(mem: Memory, root: nat, v: nat) {
    Granted(mem, root, 0, v, UserMode) && Granted(mem, root, 0, v, Writing)
  }

  /** The flags of both mappings. */
  lemma FullAccess()
    ensures Gives(FLAGS, UserMode) && Gives(FLAGS, Writing) && User(FLAGS)
  {
  }

  /** The pages that user mode may use stay so. */
  ghost predicate UserPagesKept(mem: Memory, mem': Memory, root: nat, u: nat) {
    forall v: nat | InRegion(Private, v) && !SamePage(u, v) && UserPage(mem, root, v) :: UserPage(mem', root, v)
  }

  lemma KeptThroughMap(a: Memory, b: Memory, c: Memory, root: nat, u: nat, user: bool)
    requires SameRights(a, b, root, Private) && RightsKept(b, c, root, Private, u, user)
    ensures UserPagesKept(a, c, root, u)
  {
    hide Granted, PageGives, InRegion, SamePage;
    forall v: nat | InRegion(Private, v) && !SamePage(u, v) && UserPage(a, root, v)
      ensures UserPage(c, root, v)
    {
      assert RightsKeptAt(b, c, root, 0, v, user);
    }
  }

  lemma KeptThroughTake(a: Memory, b: Memory, root: nat, u: nat)
    requires SameRights(a, b, root, Private)
    ensures UserPagesKept(a, b, root, u)
  {
    hide Granted, InRegion, SamePage;
  }

  /** Tables that hold what they held stay open. */
  lemma StillOpen(mem: Memory, mem': Memory, tab: Tables)
    requires Open(mem, tab) && |mem'| == |mem| && forall p | p in tab && tab[p] < |mem| :: mem'[tab[p]] == mem[tab[p]]
    ensures Open(mem', tab)
  {
    hide Gives;
    forall p, x | p in tab && Sub(p, x) in tab
      ensures Gives(Entry(mem', tab, p, x), Writing)
    {
      assert Gives(Entry(mem, tab, p, x), Writing);
    }
  }

  lemma OpenAfterTake(mem: Memory, mem': Memory, tab: Tables, free: set<nat>)
    requires Open(mem, tab) && |mem'| == |mem| && tab.Values !! free
    requires forall f | 0 <= f < |mem| && f !in free :: mem'[f] == mem[f]
    ensures Open(mem', tab)
  {
    hide Open;
    forall p | p in tab && tab[p] < |mem|
      ensures mem'[tab[p]] == mem[tab[p]]
    {
      assert tab[p] in tab.Values;
    }
    StillOpen(mem, mem', tab);
  }

  lemma TwoPages()
    ensures !SamePage(STACK, CODE)
  {
  }

  lemma EmptyView(mem: Memory, root: nat, kernelRoot: nat)
    requires EmptyUserArea(mem, root, kernelRoot)
    ensures View(mem, root, kernelRoot, None, None)
  {
  }

  lemma SameView(mem: Memory, mem': Memory, root: nat, kernelRoot: nat, code: Option<nat>, stack: Option<nat>)
    requires View(mem, root, kernelRoot, code, stack)
    requires SameEverywhere(mem, mem', root) && SameEverywhere(mem, mem', kernelRoot)
    ensures View(mem', root, kernelRoot, code, stack)
  {
    hide Translate, InRegion, SamePage;
  }

  /** The entry for a page below the end of memory leads to that page. */
  lemma PageEntry(f: nat, v: nat)
    requires f < Pmm.MAX_PAGES
    ensures LeafTranslation(LeafEntry(f * PAGE_SIZE, FLAGS), v) == Some(f * PAGE_SIZE + v % PAGE_SIZE)
  {
    hide LeafEntry;
    LeafEntryBits(f * PAGE_SIZE, FLAGS);
    LeafHwAddress(f * PAGE_SIZE, FLAGS);
  }

  lemma CodeView(mem: Memory, mem': Memory, root: nat, kernelRoot: nat, f: nat)
    requires View(mem, root, kernelRoot, None, None) && f < Pmm.MAX_PAGES && SameEverywhere(mem, mem', kernelRoot)
    requires RemappedUser(mem, mem', root, CODE, LeafEntry(f * PAGE_SIZE, FLAGS))
    ensures View(mem', root, kernelRoot, Some(f * PAGE_SIZE), None)
  {
    hide Translate, InRegion, SamePage, LeafEntry, LeafTranslation;
    forall v: nat
      ensures Translate(mem', root, v) == Seen(mem', kernelRoot, Some(f * PAGE_SIZE), None, v)
    {
      PageEntry(f, v);
    }
  }

  lemma StackView(mem: Memory, mem': Memory, root: nat, kernelRoot: nat, code: nat, f: nat)
    requires View(mem, root, kernelRoot, Some(code), None) && f < Pmm.MAX_PAGES && SameEverywhere(mem, mem', kernelRoot)
    requires RemappedUser(mem, mem', root, STACK, LeafEntry(f * PAGE_SIZE, FLAGS))
    ensures View(mem', root, kernelRoot, Some(code), Some(f * PAGE_SIZE))
  {
    hide Translate, InRegion, LeafEntry, LeafTranslation;
    forall v: nat
      ensures Translate(mem', root, v) == Seen(mem', kernelRoot, Some(code), Some(f * PAGE_SIZE), v)
    {
      PageEntry(f, v);
    }
  }

  lemma UserAddresses()
    ensures InRegion(Private, CODE) && InRegion(Private, STACK)
    ensures forall d: nat | d <= 3 :: PathTo(CODE, d) == PathTo(STACK, d)
  {
  }

  /** Once the program is mapped, mapping the stack needs no table. */
  lemma StackNeedsNoTable(mem: Memory, root: nat, kernelRoot: nat, tab: Tables, kernelTables: Tables, code: nat)
    requires SpaceOk(mem, root, tab, kernelTables) && View(mem, root, kernelRoot, Some(code), None)
    ensures Missing(tab, STACK) == 0
  {
    hide HwFrom, PathTo, Index, InRegion, SpaceOk;
    UserAddresses();
    RootOfSpace(mem, root, tab, kernelTables, CODE);
    assert Translate(mem, root, CODE).Some?;
    WalkInside(mem, root, tab, kernelTables, CODE, 0);
    WalkInside(mem, root, tab, kernelTables, CODE, 1);
    WalkInside(mem, root, tab, kernelTables, CODE, 2);
  }

  // ---------- frames ----------

  /** The frames that have left the free set are tables of the space or pages. */
  ghost predicate Accounted(free0: set<nat>, free: set<nat>, tab: Tables, pages: set<nat>) {
    && free + tab.Values + pages == free0
    && free !! tab.Values && free !! pages && tab.Values !! pages
  }

  lemma PagesTaken(free0: set<nat>, free: set<nat>, tab: Tables, pages: set<nat>, more: set<nat>)
    requires Accounted(free0, free, tab, pages) && more <= free
    ensures Accounted(free0, free - more, tab, pages + more)
  {
  }

  lemma TablesTaken(free0: set<nat>, free: set<nat>, free': set<nat>, tab: Tables, tab': Tables, pages: set<nat>)
    requires Accounted(free0, free, tab, pages) && FramesConserved(free, free', tab, tab')
    ensures Accounted(free0, free', tab', pages)
  {
  }

  /** The ownership invariant with fewer frames free and these written. */
  lemma PagesWritten(mem: Memory, mem': Memory, kernelRoot: nat, kernelTables: Tables, spaces: map<nat, Tables>,
                     free: set<nat>, free': set<nat>, ks: nat, ke: nat)
    requires Invariant(mem, kernelRoot, kernelTables, spaces, free, ks, ke) && |mem'| == |mem| && free' <= free
    requires forall f | 0 <= f < |mem| && f !in free :: mem'[f] == mem[f]
    ensures Invariant(mem', kernelRoot, kernelTables, spaces, free', ks, ke)
    ensures SameEverywhere(mem, mem', kernelRoot) && forall s | s in spaces :: SameEverywhere(mem, mem', s)
  {
    hide Tree, SpaceOk, SameEverywhere, Reserved;
    FreeFramesWritten(mem, mem', kernelRoot, kernelTables, spaces, free, ks, ke);
    forall s | s in spaces
      ensures Owned(spaces[s], kernelTables, free', ks, ke)
    {
      assert Owned(spaces[s], kernelTables, free, ks, ke);
    }
  }

  // ---------- the steps ----------

  /** `pmm_alloc_page` and the filling of the page. */
  method TakePage(mm: MemoryManager, content: Table) returns (addr: nat)
    requires mm.Valid()
    modifies mm`mem, mm.pmm, mm.pmm.bitmap
    ensures mm.Valid() && mm.pmm.Surplus() == old(mm.pmm.Surplus()) && mm.pmm.ready == old(mm.pmm.ready)
    ensures addr == 0 <==> old(mm.pmm.Free()) == {}
    ensures addr == 0 ==> mm.mem == old(mm.mem) && mm.pmm.Free() == {}
    ensures addr != 0 ==>
              var f := addr / PAGE_SIZE;
              && addr == f * PAGE_SIZE && f in old(mm.pmm.Free()) && f < Pmm.MAX_PAGES && f < |old(mm.mem)|
              && mm.pmm.Free() == old(mm.pmm.Free()) - {f} && mm.mem == old(mm.mem)[f := content]
    ensures SameEverywhere(old(mm.mem), mm.mem, mm.kernelRoot)
    ensures forall s | s in mm.spaces :: SameEverywhere(old(mm.mem), mm.mem, s)
    ensures forall s | s in mm.spaces :: SameRights(old(mm.mem), mm.mem, s, Private)
  {
    hide Pmm.ClearBits, Invariant, SameEverywhere, Pmm.FirstFrom, Pmm.PageIsReserved, SameRights;
    ghost var free0 := mm.pmm.Free();
    KernelParts(mm.mem, mm.kernelRoot, mm.kernelTables, mm.spaces, free0, mm.pmm.kernelStart, mm.pmm.kernelEnd);
    addr := mm.pmm.AllocPage();
    if addr != 0 {
      mm.mem := mm.mem[addr / PAGE_SIZE := content];
    }
    FreeFramesRights(old(mm.mem), mm.mem, mm.kernelRoot, mm.kernelTables, mm.spaces, free0, mm.pmm.kernelStart,
                     mm.pmm.kernelEnd);
    PagesWritten(old(mm.mem), mm.mem, mm.kernelRoot, mm.kernelTables, mm.spaces, free0, mm.pmm.Free(),
                 mm.pmm.kernelStart, mm.pmm.kernelEnd);
  }

  lemma RunInFree(free: set<nat>, start: nat, count: nat)
    requires Pmm.RunAt(free, start, count)
    ensures Pmm.PageRange(start, count) <= free && start + count <= Pmm.MAX_PAGES
    ensures forall k: nat | start <= k < start + count :: k in free && k < Pmm.MAX_PAGES
  {
  }

  /** `memset` on a run of pages. */
  method ZeroPages(mm: MemoryManager, start: nat, count: nat, ghost free: set<nat>)
    requires start + count <= |mm.mem| && forall k: nat | start <= k < start + count :: k in free
    modifies mm`mem
    ensures |mm.mem| == |old(mm.mem)|
    ensures forall f | 0 <= f < |mm.mem| && f !in free :: mm.mem[f] == old(mm.mem)[f]
  {
    for i := 0 to count
      invariant |mm.mem| == |old(mm.mem)|
      invariant forall f | 0 <= f < |mm.mem| && f !in free :: mm.mem[f] == old(mm.mem)[f]
    {
      mm.mem := mm.mem[start + i := ZeroTable()];
    }
  }

  /** `pmm_alloc_pages_multi` and the zeroing of the pages. */
  method TakeStack(mm: MemoryManager) returns (addr: nat)
    requires mm.Valid()
    modifies mm`mem, mm.pmm, mm.pmm.bitmap
    ensures mm.Valid() && mm.pmm.Surplus() == old(mm.pmm.Surplus()) && mm.pmm.ready == old(mm.pmm.ready)
    ensures addr == 0 <==> forall s: nat :: !Pmm.RunAt(old(mm.pmm.Free()), s, Scheduler.STACK_PAGES)
    ensures addr == 0 ==> mm.mem == old(mm.mem) && mm.pmm.Free() == old(mm.pmm.Free())
    ensures addr != 0 ==>
              var range := Pmm.PageRange(addr / PAGE_SIZE, Scheduler.STACK_PAGES);
              && addr % PAGE_SIZE == 0 && range <= old(mm.pmm.Free()) && mm.pmm.Free() == old(mm.pmm.Free()) - range
    ensures |mm.mem| == |old(mm.mem)|
    ensures forall f | 0 <= f < |mm.mem| && f !in old(mm.pmm.Free()) :: mm.mem[f] == old(mm.mem)[f]
    ensures SameEverywhere(old(mm.mem), mm.mem, mm.kernelRoot)
    ensures forall s | s in mm.spaces :: SameEverywhere(old(mm.mem), mm.mem, s)
    ensures forall s | s in mm.spaces :: SameRights(old(mm.mem), mm.mem, s, Private)
  {
    hide Pmm.ClearBits, Invariant, SameEverywhere, Pmm.PageIsReserved, Pmm.PageRange, Pmm.RunAt, SameRights;
    ghost var free0 := mm.pmm.Free();
    KernelParts(mm.mem, mm.kernelRoot, mm.kernelTables, mm.spaces, free0, mm.pmm.kernelStart, mm.pmm.kernelEnd);
    addr := mm.pmm.AllocPagesMulti(Scheduler.STACK_PAGES);
    if addr != 0 {
      RunInFree(free0, addr / PAGE_SIZE, Scheduler.STACK_PAGES);
      ZeroPages(mm, addr / PAGE_SIZE, Scheduler.STACK_PAGES, free0);
    }
    FreeFramesRights(old(mm.mem), mm.mem, mm.kernelRoot, mm.kernelTables, mm.spaces, free0, mm.pmm.kernelStart,
                     mm.pmm.kernelEnd);
    PagesWritten(old(mm.mem), mm.mem, mm.kernelRoot, mm.kernelTables, mm.spaces, free0, mm.pmm.Free(),
                 mm.pmm.kernelStart, mm.pmm.kernelEnd);
  }

  lemma RemappedAfter(a: Memory, b: Memory, c: Memory, root: nat, u: nat, w: Word)
    requires SameEverywhere(a, b, root) && RemappedUser(b, c, root, u, w)
    ensures RemappedUser(a, c, root, u, w)
  {
    hide Translate, InRegion, SamePage, LeafTranslation;
  }

  /** A new page of the process; the caller does not learn whether it could be mapped, which `mapped` says. */
  method AddPage(mm: MemoryManager, root: nat, virt: Word, content: Table) returns (addr: nat, ghost mapped: bool)
    requires mm.Valid() && root in mm.spaces && InRegion(Private, virt) && Open(mm.mem, mm.spaces[root])
    modifies mm`mem, mm`spaces, mm.pmm, mm.pmm.bitmap
    ensures mm.Valid() && mm.pmm.Surplus() == old(mm.pmm.Surplus()) && mm.pmm.ready == old(mm.pmm.ready)
    ensures mm.spaces.Keys == old(mm.spaces).Keys
    ensures forall s | s in mm.spaces && s != root :: mm.spaces[s] == old(mm.spaces)[s]
    ensures Open(mm.mem, mm.spaces[root]) && UserPagesKept(old(mm.mem), mm.mem, root, virt)
    ensures mapped ==> UserPage(mm.mem, root, virt)
    ensures addr == 0 <==> old(mm.pmm.Free()) == {}
    ensures addr == 0 ==> mm.pmm.Free() == {} && mm.spaces == old(mm.spaces)
    ensures addr != 0 ==>
              var f := addr / PAGE_SIZE;
              && addr == f * PAGE_SIZE && f in old(mm.pmm.Free()) && f < Pmm.MAX_PAGES && f < |mm.mem|
              && FramesConserved(old(mm.pmm.Free()) - {f}, mm.pmm.Free(), old(mm.spaces)[root], mm.spaces[root])
              && (mapped ==>
                  RemappedUser(old(mm.mem), mm.mem, root, virt, LeafEntry(addr, FLAGS)) && mm.mem[f] == content)
    ensures mapped <==> addr != 0 && Missing(old(mm.spaces)[root], virt) < |old(mm.pmm.Free())|
    ensures !mapped ==> mm.pmm.Free() == {}
    ensures |mm.mem| == |old(mm.mem)|
    ensures forall f | 0 <= f < |mm.mem| && f !in old(mm.pmm.Free()) && f !in mm.spaces[root].Values ::
              mm.mem[f] == old(mm.mem)[f]
    ensures SameEverywhere(old(mm.mem), mm.mem, mm.kernelRoot)
    ensures forall s | s in mm.spaces && s != root :: SameEverywhere(old(mm.mem), mm.mem, s)
  {
    hide Pmm.ClearBits, Invariant, SameEverywhere, Pmm.PageIsReserved, RemappedUser, InRegion, Missing, LeafEntry,
         MarksBut, RightsKept, Granted, PageGives, Gives, PointersGive, User, Open, SameRights, UserPagesKept, Entry,
         SpaceOk;
    mapped := false;
    InvariantParts(mm.mem, mm.kernelRoot, mm.kernelTables, mm.spaces, mm.pmm.Free(), mm.pmm.kernelStart,
                   mm.pmm.kernelEnd, root);
    addr := TakePage(mm, content);
    KeptThroughTake(old(mm.mem), mm.mem, root, virt);
    OpenAfterTake(old(mm.mem), mm.mem, mm.spaces[root], old(mm.pmm.Free()));
    if addr == 0 {
      return;
    }
    ghost var m1 := mm.mem;
    OpenGives(m1, mm.spaces[root], root, Private, virt);
    FullAccess();
    var ok := mm.MapUser(root, virt, addr, FLAGS);
    mapped := ok;
    KeptThroughMap(old(mm.mem), m1, mm.mem, root, virt, User(FLAGS));
    if ok {
      RemappedAfter(old(mm.mem), m1, mm.mem, root, virt, LeafEntry(addr, FLAGS));
    }
    SameTwice(old(mm.mem), m1, mm.mem);
  }

  lemma OneMore(before: map<nat, Tables>, mid: map<nat, Tables>, after: map<nat, Tables>, root: nat)
    requires root !in before && root in mid && mid == before[root := mid[root]]
    requires after.Keys == mid.Keys && forall s | s in after && s != root :: after[s] == mid[s]
    ensures after == before[root := after[root]]
  {
  }

  /** What a page adds to the account of the frames. */
  lemma PageAdded(free0: set<nat>, free: set<nat>, free': set<nat>, tab: Tables, tab': Tables, pages: set<nat>, f: nat)
    requires Accounted(free0, free, tab, pages) && f in free && FramesConserved(free - {f}, free', tab, tab')
    ensures Accounted(free0, free', tab', pages + {f})
  {
    PagesTaken(free0, free, tab, pages, {f});
    TablesTaken(free0, free - {f}, free', tab, tab', pages + {f});
  }

  lemma SpaceParts(mm: MemoryManager, root: nat)
    requires mm.Valid() && root in mm.spaces
    ensures SpaceOk(mm.mem, root, mm.spaces[root], mm.kernelTables)
  {
    hide Invariant, SpaceOk;
    InvariantParts(mm.mem, mm.kernelRoot, mm.kernelTables, mm.spaces, mm.pmm.Free(), mm.pmm.kernelStart,
                   mm.pmm.kernelEnd, root);
  }

  /** The program is in frame `c` and mapped; the stack is not. */
  ghost predicate CodeIn(mem: Memory, root: nat, kernelRoot: nat, program: Table, c: nat) {
    && View(mem, root, kernelRoot, Some(c * PAGE_SIZE), None) && c < |mem| && mem[c] == program
    && UserPage(mem, root, CODE)
  }

  /** The space shows the program at `CODE`, zeros at `STACK`, nothing else inside the user area, and the kernel
      outside. User mode may use both pages. */
  ghost predicate Built(mem: Memory, root: nat, kernelRoot: nat, program: Table, c: nat, f: nat) {
    && View(mem, root, kernelRoot, Some(c * PAGE_SIZE), Some(f * PAGE_SIZE))
    && c < |mem| && mem[c] == program && f < |mem| && mem[f] == ZeroTable() && c != f
    && UserPage(mem, root, CODE) && UserPage(mem, root, STACK)
  }

  lemma CodeDone(mem: Memory, mem': Memory, root: nat, kernelRoot: nat, program: Table, c: nat)
    requires EmptyUserArea(mem, root, kernelRoot) && c < Pmm.MAX_PAGES && c < |mem'| && mem'[c] == program
    requires RemappedUser(mem, mem', root, CODE, LeafEntry(c * PAGE_SIZE, FLAGS))
    requires SameEverywhere(mem, mem', kernelRoot) && UserPage(mem', root, CODE)
    ensures CodeIn(mem', root, kernelRoot, program, c)
  {
    hide View, EmptyUserArea, RemappedUser, SameEverywhere, LeafEntry, UserPage;
    EmptyView(mem, root, kernelRoot);
    CodeView(mem, mem', root, kernelRoot, c);
  }

  lemma StackDone(mem: Memory, mem': Memory, root: nat, kernelRoot: nat, program: Table, c: nat, f: nat,
                  free0: set<nat>,
                  free: set<nat>, free': set<nat>, tab: Tables, tab': Tables)
    requires CodeIn(mem, root, kernelRoot, program, c) && Accounted(free0, free, tab, {c})
    requires f in free && FramesConserved(free - {f}, free', tab, tab')
    requires f < Pmm.MAX_PAGES && f < |mem'| == |mem| && mem'[f] == ZeroTable() && SameEverywhere(mem, mem', kernelRoot)
    requires RemappedUser(mem, mem', root, STACK, LeafEntry(f * PAGE_SIZE, FLAGS))
    requires forall k | 0 <= k < |mem'| && k !in free && k !in tab'.Values :: mem'[k] == mem[k]
    requires UserPage(mem', root, STACK) && UserPagesKept(mem, mem', root, STACK)
    ensures Built(mem', root, kernelRoot, program, c, f)
  {
    hide View, FramesConserved, RemappedUser, SameEverywhere, LeafEntry, ZeroTable, UserPage, InRegion, SamePage;
    UserAddresses();
    TwoPages();
    StackView(mem, mem', root, kernelRoot, c * PAGE_SIZE, f);
    PageAdded(free0, free, free', tab, tab', {c}, f);
    assert c in {c} + {f};
  }

  /** The user stack. If the program could not be mapped no frame is left, and this fails as well. */
  method AddStack(mm: MemoryManager, root: nat, ghost c: nat, ghost program: Table, ghost free0: set<nat>,
                  ghost mapped: bool)
    returns (stack: nat, ghost pages: set<nat>)
    requires mm.Valid() && root in mm.spaces && Accounted(free0, mm.pmm.Free(), mm.spaces[root], {c})
    requires if mapped then CodeIn(mm.mem, root, mm.kernelRoot, program, c) else mm.pmm.Free() == {}
    requires Open(mm.mem, mm.spaces[root])
    modifies mm`mem, mm`spaces, mm.pmm, mm.pmm.bitmap
    ensures mm.Valid() && mm.pmm.Surplus() == old(mm.pmm.Surplus()) && mm.pmm.ready == old(mm.pmm.ready)
    ensures mm.spaces.Keys == old(mm.spaces).Keys
    ensures forall s | s in mm.spaces && s != root :: mm.spaces[s] == old(mm.spaces)[s]
    ensures Accounted(free0, mm.pmm.Free(), mm.spaces[root], pages)
    ensures stack != 0 ==>
              var f := stack / PAGE_SIZE;
              stack == f * PAGE_SIZE && Built(mm.mem, root, mm.kernelRoot, program, c, f) && pages == {c} + {f}
    ensures SameEverywhere(old(mm.mem), mm.mem, mm.kernelRoot)
    ensures forall s | s in mm.spaces && s != root :: SameEverywhere(old(mm.mem), mm.mem, s)
  {
    hide Invariant, Pmm.PageAllocator.Surplus, SameEverywhere, RemappedUser, InRegion, Missing, LeafEntry, View,
         FramesConserved, Accounted, Built, CodeIn, ZeroTable, Pmm.ClearBits, PathTo, UserPage, UserPagesKept, Open;
    pages := {c};
    UserAddresses();
    ghost var free, tab := mm.pmm.Free(), mm.spaces[root];
    if mapped {
      StackWillFit(mm, root, program, c);
    }
    ghost var done;
    stack, done := AddPage(mm, root, STACK, ZeroTable());
    if stack != 0 {
      ghost var f := stack / PAGE_SIZE;
      StackDone(old(mm.mem), mm.mem, root, mm.kernelRoot, program, c, f, free0, free, mm.pmm.Free(), tab,
                mm.spaces[root]);
      PageAdded(free0, free, mm.pmm.Free(), tab, mm.spaces[root], {c}, f);
      pages := {c} + {f};
    }
  }

  lemma StackWillFit(mm: MemoryManager, root: nat, program: Table, c: nat)
    requires mm.Valid() && root in mm.spaces && CodeIn(mm.mem, root, mm.kernelRoot, program, c)
    ensures Missing(mm.spaces[root], STACK) == 0
  {
    hide Invariant, SpaceOk, View, Missing;
    SpaceParts(mm, root);
    StackNeedsNoTable(mm.mem, root, mm.kernelRoot, mm.spaces[root], mm.kernelTables, c * PAGE_SIZE);
  }

  /**
    * The part of `process_create` up to the user stack: a new space with the program and the stack in it. When an
    * allocation fails, what was allocated before is never given back: `pages` and the tables of the space are lost.
    */
  method BuildSpace(mm: MemoryManager, program: Table)
    returns (pml4: nat, code: nat, stack: nat, ghost pages: set<nat>)
    requires mm.Valid()
    modifies mm`mem, mm`spaces, mm.pmm, mm.pmm.bitmap
    ensures mm.Valid() && mm.pmm.Surplus() == old(mm.pmm.Surplus()) && mm.pmm.ready == old(mm.pmm.ready)
    ensures pml4 == 0 <==> |old(mm.pmm.Free())| < 2
    ensures pml4 == 0 ==> stack == 0 && mm.pmm.Free() == old(mm.pmm.Free()) && mm.spaces == old(mm.spaces)
    ensures pml4 != 0 ==>
              var root := pml4 / PAGE_SIZE;
              && pml4 == root * PAGE_SIZE && root !in old(mm.spaces) && root in mm.spaces
              && mm.spaces == old(mm.spaces)[root := mm.spaces[root]]
              && Accounted(old(mm.pmm.Free()), mm.pmm.Free(), mm.spaces[root], pages)
    ensures stack != 0 ==>
              var c, f := code / PAGE_SIZE, stack / PAGE_SIZE;
              && pml4 != 0 && code == c * PAGE_SIZE && stack == f * PAGE_SIZE && pages == {c} + {f}
              && Built(mm.mem, pml4 / PAGE_SIZE, mm.kernelRoot, program, c, f)
    ensures SameEverywhere(old(mm.mem), mm.mem, mm.kernelRoot)
    ensures forall s | s in old(mm.spaces) :: SameEverywhere(old(mm.mem), mm.mem, s)
  {
    hide Invariant, Pmm.PageAllocator.Surplus, SameEverywhere, RemappedUser, InRegion, Missing, LeafEntry, View,
         FramesConserved, Accounted, Built, CodeIn, EmptyUserArea, ZeroTable, Pmm.ClearBits, PathTo, Open, SameRights;
    code, stack, pages := 0, 0, {};
    pml4 := mm.CreateAddressSpace();
    if pml4 == 0 {
      return;
    }
    ghost var m1, s1 := mm.mem, mm.spaces;
    NothingTaken(old(mm.pmm.Free()), mm.pmm.Free(), mm.spaces[pml4 / PAGE_SIZE]);
    code, stack, pages := FillSpace(mm, pml4 / PAGE_SIZE, program, old(mm.pmm.Free()));
    OneMore(old(mm.spaces), s1, mm.spaces, pml4 / PAGE_SIZE);
    SameTwice(old(mm.mem), m1, mm.mem);
  }

  lemma FirstPage(free0: set<nat>, free: set<nat>, free': set<nat>, tab: Tables, tab': Tables, f: nat)
    requires Accounted(free0, free, tab, {}) && f in free && FramesConserved(free - {f}, free', tab, tab')
    ensures Accounted(free0, free', tab', {f})
  {
    hide Accounted, FramesConserved;
    PageAdded(free0, free, free', tab, tab', {}, f);
    assert {} + {f} == {f};
  }

  /** The program's page. */
  method AddProgram(mm: MemoryManager, root: nat, program: Table, ghost free0: set<nat>)
    returns (code: nat, ghost c: nat, ghost mapped: bool)
    requires mm.Valid() && root in mm.spaces && EmptyUserArea(mm.mem, root, mm.kernelRoot)
    requires Accounted(free0, mm.pmm.Free(), mm.spaces[root], {}) && Open(mm.mem, mm.spaces[root])
    modifies mm`mem, mm`spaces, mm.pmm, mm.pmm.bitmap
    ensures mm.Valid() && mm.pmm.Surplus() == old(mm.pmm.Surplus()) && mm.pmm.ready == old(mm.pmm.ready)
    ensures mm.spaces.Keys == old(mm.spaces).Keys && Open(mm.mem, mm.spaces[root])
    ensures forall s | s in mm.spaces && s != root :: mm.spaces[s] == old(mm.spaces)[s]
    ensures code == 0 ==> Accounted(free0, mm.pmm.Free(), mm.spaces[root], {})
    ensures code != 0 ==> code == c * PAGE_SIZE && Accounted(free0, mm.pmm.Free(), mm.spaces[root], {c})
    ensures code != 0 && mapped ==> CodeIn(mm.mem, root, mm.kernelRoot, program, c)
    ensures code != 0 && !mapped ==> mm.pmm.Free() == {}
    ensures SameEverywhere(old(mm.mem), mm.mem, mm.kernelRoot)
    ensures forall s | s in mm.spaces && s != root :: SameEverywhere(old(mm.mem), mm.mem, s)
  {
    hide Invariant, Pmm.PageAllocator.Surplus, SameEverywhere, RemappedUser, InRegion, Missing, LeafEntry, View,
         FramesConserved, Accounted, Built, CodeIn, EmptyUserArea, ZeroTable, Pmm.ClearBits, PathTo, UserPage,
         UserPagesKept, Open;
    UserAddresses();
    ghost var free, tab := mm.pmm.Free(), mm.spaces[root];
    code, mapped := AddPage(mm, root, CODE, program);
    c := code / PAGE_SIZE;
    if code != 0 {
      FirstPage(free0, free, mm.pmm.Free(), tab, mm.spaces[root], c);
      if mapped {
        CodeDone(old(mm.mem), mm.mem, root, mm.kernelRoot, program, c);
      }
    }
  }

  /** The two pages. */
  method FillSpace(mm: MemoryManager, root: nat, program: Table, ghost free0: set<nat>)
    returns (code: nat, stack: nat, ghost pages: set<nat>)
    requires mm.Valid() && root in mm.spaces && EmptyUserArea(mm.mem, root, mm.kernelRoot)
    requires Accounted(free0, mm.pmm.Free(), mm.spaces[root], {}) && Open(mm.mem, mm.spaces[root])
    modifies mm`mem, mm`spaces, mm.pmm, mm.pmm.bitmap
    ensures mm.Valid() && mm.pmm.Surplus() == old(mm.pmm.Surplus()) && mm.pmm.ready == old(mm.pmm.ready)
    ensures mm.spaces.Keys == old(mm.spaces).Keys
    ensures forall s | s in mm.spaces && s != root :: mm.spaces[s] == old(mm.spaces)[s]
    ensures Accounted(free0, mm.pmm.Free(), mm.spaces[root], pages)
    ensures stack != 0 ==>
              var c, f := code / PAGE_SIZE, stack / PAGE_SIZE;
              && code == c * PAGE_SIZE && stack == f * PAGE_SIZE && pages == {c} + {f}
              && Built(mm.mem, root, mm.kernelRoot, program, c, f)
    ensures SameEverywhere(old(mm.mem), mm.mem, mm.kernelRoot)
    ensures forall s | s in mm.spaces && s != root :: SameEverywhere(old(mm.mem), mm.mem, s)
  {
    hide Invariant, Pmm.PageAllocator.Surplus, SameEverywhere, RemappedUser, InRegion, Missing, LeafEntry, View,
         FramesConserved, Accounted, Built, CodeIn, EmptyUserArea, ZeroTable, Pmm.ClearBits, PathTo, Open;
    stack, pages := 0, {};
    ghost var c, mapped;
    code, c, mapped := AddProgram(mm, root, program, free0);
    if code != 0 {
      ghost var m2 := mm.mem;
      stack, pages := AddStack(mm, root, c, program, free0, mapped);
      SameTwice(old(mm.mem), m2, mm.mem);
    }
  }

  lemma NothingTaken(free0: set<nat>, free: set<nat>, tab: Tables)
    requires tab.Values <= free0 && free == free0 - tab.Values
    ensures Accounted(free0, free, tab, {})
  {
  }

  /** A space has at least its root, so a space that nobody holds is a loss. */
  lemma SomethingTaken(free0: set<nat>, free: set<nat>, tab: Tables, pages: set<nat>)
    requires Accounted(free0, free, tab, pages) && Root in tab
    ensures free != free0
  {
    assert tab[Root] in tab.Values;
  }

  lemma RootThere(mm: MemoryManager, root: nat)
    requires mm.Valid() && root in mm.spaces
    ensures Root in mm.spaces[root]
  {
    hide Invariant;
    SpaceParts(mm, root);
  }

  /** Writes to free frames leave a space that is built as it is. */
  lemma StillBuilt(mem: Memory, mem': Memory, root: nat, kernelRoot: nat, program: Table, c: nat, f: nat,
                   free0: set<nat>,
                   free: set<nat>, tab: Tables)
    requires Built(mem, root, kernelRoot, program, c, f) && Accounted(free0, free, tab, {c} + {f}) && |mem'| == |mem|
    requires forall k | 0 <= k < |mem| && k !in free :: mem'[k] == mem[k]
    requires SameEverywhere(mem, mem', root) && SameEverywhere(mem, mem', kernelRoot)
    requires SameRights(mem, mem', root, Private)
    ensures Built(mem', root, kernelRoot, program, c, f)
  {
    hide View, SameEverywhere, Granted, InRegion;
    UserAddresses();
    SameView(mem, mem', root, kernelRoot, Some(c * PAGE_SIZE), Some(f * PAGE_SIZE));
    assert c in {c} + {f} && f in {c} + {f};
  }

  /** All allocations; a zero for the kernel stack says that one of them failed. */
  method LoadProcess(mm: MemoryManager, program: Table)
    returns (pml4: nat, kernelStack: nat, ghost c: nat, ghost f: nat)
    requires mm.Valid()
    modifies mm`mem, mm`spaces, mm.pmm, mm.pmm.bitmap
    ensures mm.Valid() && mm.pmm.Surplus() == old(mm.pmm.Surplus()) && mm.pmm.ready == old(mm.pmm.ready)
    ensures kernelStack == 0 ==> (mm.pmm.Free() != old(mm.pmm.Free()) <==> |old(mm.pmm.Free())| >= 2)
    ensures kernelStack != 0 ==>
              var root := pml4 / PAGE_SIZE;
              && pml4 == root * PAGE_SIZE != 0 && root !in old(mm.spaces) && root in mm.spaces
              && mm.spaces == old(mm.spaces)[root := mm.spaces[root]]
              && Built(mm.mem, root, mm.kernelRoot, program, c, f)
              && Accounted(old(mm.pmm.Free()), mm.pmm.Free(), mm.spaces[root],
                           {c} + {f} + Pmm.PageRange(kernelStack / PAGE_SIZE, Scheduler.STACK_PAGES))
    ensures SameEverywhere(old(mm.mem), mm.mem, mm.kernelRoot)
    ensures forall s | s in old(mm.spaces) :: SameEverywhere(old(mm.mem), mm.mem, s)
  {
    hide Invariant, Pmm.PageAllocator.Surplus, SameEverywhere, View, Accounted, Built, Pmm.ClearBits, Pmm.PageRange,
         Pmm.RunAt, SameRights;
    kernelStack, c, f := 0, 0, 0;
    ghost var pages;
    var code, stack;
    pml4, code, stack, pages := BuildSpace(mm, program);
    if pml4 == 0 {
      return;
    }
    ghost var free0, m1, free1, tab := old(mm.pmm.Free()), mm.mem, mm.pmm.Free(), mm.spaces[pml4 / PAGE_SIZE];
    RootThere(mm, pml4 / PAGE_SIZE);
    SomethingTaken(free0, free1, tab, pages);
    if stack == 0 {
      return;
    }
    c, f := code / PAGE_SIZE, stack / PAGE_SIZE;
    kernelStack := TakeStack(mm);
    SameTwice(old(mm.mem), m1, mm.mem);
    if kernelStack != 0 {
      StillBuilt(m1, mm.mem, pml4 / PAGE_SIZE, mm.kernelRoot, program, c, f, free0, free1, tab);
      PagesTaken(free0, free1, tab, pages, Pmm.PageRange(kernelStack / PAGE_SIZE, Scheduler.STACK_PAGES));
    }
  }

  /**
    * `process_create`. It looks at no result of `vmm_map_page`, and still a process starts only with its program and
    * its stack mapped, its own tables below it, and everything else as the kernel sees it. When it fails nothing is
    * given back: frames are lost exactly if the address space could be created.
    */
  method CreateProcess(mm: MemoryManager, table: Scheduler.ThreadTable, program: Table)
    returns (started: bool, ghost c: nat, ghost f: nat)
    requires mm.Valid() && Scheduler.Shaped(table.Value()) && table.threads as object != mm.pmm.bitmap
    modifies mm`mem, mm`spaces, mm.pmm, mm.pmm.bitmap, table`n, table.threads
    ensures mm.Valid() && mm.pmm.Surplus() == old(mm.pmm.Surplus()) && mm.pmm.ready == old(mm.pmm.ready)
    ensures !started ==> table.Value() == old(table.Value())
    ensures !started ==>
              (mm.pmm.Free() != old(mm.pmm.Free()) <==>
               old(table.n) < Scheduler.MAX_THREADS && |old(mm.pmm.Free())| >= 2)
    ensures started ==>
              && old(table.n) < Scheduler.MAX_THREADS
              && var t := table.threads[old(table.n)];
                 var root := t.cr3 / PAGE_SIZE;
                 && t.cr3 == root * PAGE_SIZE && root !in old(mm.spaces) && root in mm.spaces
                 && mm.spaces == old(mm.spaces)[root := mm.spaces[root]]
                 && table.Value() == old(Scheduler.Step(table.Value(), Scheduler.Op.CreateProcess(t.cr3, t.stackLimit)))
                 && Built(mm.mem, root, mm.kernelRoot, program, c, f)
                 && Accounted(old(mm.pmm.Free()), mm.pmm.Free(), mm.spaces[root],
                              {c} + {f} + Pmm.PageRange(t.stackLimit / PAGE_SIZE, Scheduler.STACK_PAGES))
    ensures SameEverywhere(old(mm.mem), mm.mem, mm.kernelRoot)
    ensures forall s | s in old(mm.spaces) :: SameEverywhere(old(mm.mem), mm.mem, s)
  {
    hide Invariant, Pmm.PageAllocator.Surplus, SameEverywhere, View, Accounted, Built, Pmm.ClearBits, Pmm.PageRange;
    started, c, f := false, 0, 0;
    Unchanged(mm.mem);
    if table.n >= Scheduler.MAX_THREADS {
      return;
    }
    var pml4, kernelStack;
    pml4, kernelStack, c, f := LoadProcess(mm, program);
    if kernelStack != 0 {
      table.CreateProcess(pml4, kernelStack);
      started := true;
    }
  }

  // ---------- a thread of the kernel ----------

  /** The invariant with frames freed that hold no table. */
  lemma MoreFree(mem: Memory, kernelRoot: nat, kernelTables: Tables, spaces: map<nat, Tables>, free: set<nat>,
                 more: set<nat>, ks: nat, ke: nat)
    requires Invariant(mem, kernelRoot, kernelTables, spaces, free, ks, ke)
    requires kernelTables.Values !! more && forall s | s in spaces :: spaces[s].Values !! more
    ensures Invariant(mem, kernelRoot, kernelTables, spaces, free + more, ks, ke)
  {
    hide Tree, SpaceOk, Reserved;
    forall s | s in spaces
      ensures Owned(spaces[s], kernelTables, free + more, ks, ke)
    {
      assert Owned(spaces[s], kernelTables, free, ks, ke);
    }
  }

  /** The frames of the stack that the slot gives back. */
  ghost function StackFrames(s: Scheduler.Table): set<nat>
    requires Scheduler.Shaped(s)
  {
    match Scheduler.GivenStack(s)
    case None => {}
    case Some((addr, count)) => Pmm.CoveredRange(addr / PAGE_SIZE, count)
  }

  /** The tables of the space that it gives back. */
  ghost function SpaceFrames(s: Scheduler.Table, spaces: map<nat, Tables>): set<nat>
    requires Scheduler.Shaped(s)
  {
    match Scheduler.GivenSpace(s)
    case None => {}
    case Some(pml4) => if pml4 / PAGE_SIZE in spaces then spaces[pml4 / PAGE_SIZE].Values else {}
  }

  /** What is free when the slot has given back what it held. */
  ghost function FreeThen(s: Scheduler.Table, spaces: map<nat, Tables>, free: set<nat>): set<nat>
    requires Scheduler.Shaped(s)
  {
    free + SpaceFrames(s, spaces) + StackFrames(s)
  }

  /** There is a slot, and no stack of the right size in it. */
  predicate NeedsStack(s: Scheduler.Table)
    requires Scheduler.Shaped(s)
  {
    var slot := Scheduler.FreeSlot(s.threads, s.n, 1);
    slot < Scheduler.MAX_THREADS && Scheduler.KeptStack(s.threads[slot]) == 0
  }

  ghost function SpacesLeft(s: Scheduler.Table, spaces: map<nat, Tables>): map<nat, Tables>
    requires Scheduler.Shaped(s)
  {
    match Scheduler.GivenSpace(s)
    case None => spaces
    case Some(pml4) => spaces - {pml4 / PAGE_SIZE}
  }

  /** What the slot that will be refilled holds is what it was given: a space that is still there, and a stack of frames
      that hold no table and are not reserved. */
  ghost predicate Owns(mm: MemoryManager, s: Scheduler.Table)
    requires Scheduler.Shaped(s)
    reads mm, mm.pmm
  {
    && s.kernelCr3 == mm.kernelRoot * PAGE_SIZE && mm.pmm.ready
    && (Scheduler.GivenSpace(s).Some? ==>
          Scheduler.GivenSpace(s).value % PAGE_SIZE == 0 && Scheduler.GivenSpace(s).value / PAGE_SIZE in mm.spaces)
    && StackApart(mm, s)
  }

  ghost predicate StackApart(mm: MemoryManager, s: Scheduler.Table)
    requires Scheduler.Shaped(s)
    reads mm, mm.pmm
  {
    && mm.kernelTables.Values !! StackFrames(s)
    && (forall k | k in mm.spaces :: mm.spaces[k].Values !! StackFrames(s))
    && (forall k | k in StackFrames(s) :: !mm.pmm.Reserved(k))
  }

  method GiveBackStack(mm: MemoryManager, addr: nat, count: nat)
    requires mm.Valid() && mm.pmm.ready && addr != 0
    requires var range := Pmm.CoveredRange(addr / PAGE_SIZE, count);
             && mm.kernelTables.Values !! range && (forall k | k in mm.spaces :: mm.spaces[k].Values !! range)
             && forall k | k in range :: !mm.pmm.Reserved(k)
    modifies mm.pmm, mm.pmm.bitmap
    ensures mm.Valid() && mm.pmm.Surplus() == old(mm.pmm.Surplus()) && mm.pmm.ready
    ensures mm.pmm.Free() == old(mm.pmm.Free()) + Pmm.CoveredRange(addr / PAGE_SIZE, count)
  {
    hide Pmm.ClearBits, Invariant, Pmm.PageIsReserved, Pmm.CoveredRange;
    MoreFree(mm.mem, mm.kernelRoot, mm.kernelTables, mm.spaces, mm.pmm.Free(),
             Pmm.CoveredRange(addr / PAGE_SIZE, count), mm.pmm.kernelStart, mm.pmm.kernelEnd);
    mm.pmm.FreePagesMulti(addr, count);
  }

  /** No stack fits. */
  ghost predicate NoRun(free: set<nat>) { forall k: nat :: !Pmm.RunAt(free, k, Scheduler.STACK_PAGES) }

  /** `pmm_alloc_pages_multi` */
  method TakeRun(mm: MemoryManager) returns (addr: nat)
    requires mm.Valid()
    modifies mm.pmm, mm.pmm.bitmap
    ensures mm.Valid() && mm.pmm.Surplus() == old(mm.pmm.Surplus()) && mm.pmm.ready == old(mm.pmm.ready)
    ensures addr == 0 <==> NoRun(old(mm.pmm.Free()))
    ensures addr == 0 ==> mm.pmm.Free() == old(mm.pmm.Free())
    ensures addr != 0 ==>
              && addr % PAGE_SIZE == 0 && Pmm.RunAt(old(mm.pmm.Free()), addr / PAGE_SIZE, Scheduler.STACK_PAGES)
              && mm.pmm.Free() ==
                 old(mm.pmm.Free()) - Pmm.PageRange(addr / PAGE_SIZE, Scheduler.STACK_PAGES)
  {
    hide Pmm.ClearBits, Invariant, Pmm.PageIsReserved, Pmm.PageRange, Pmm.RunAt;
    ghost var free0 := mm.pmm.Free();
    addr := mm.pmm.AllocPagesMulti(Scheduler.STACK_PAGES);
    PagesWritten(mm.mem, mm.mem, mm.kernelRoot, mm.kernelTables, mm.spaces, free0, mm.pmm.Free(),
                 mm.pmm.kernelStart, mm.pmm.kernelEnd);
  }

  /** The space of the slot's last thread is given back. */
  method EmptySpace(mm: MemoryManager, t: Scheduler.Thread, ghost s: Scheduler.Table)
    requires mm.Valid() && Scheduler.Shaped(s) && Owns(mm, s)
    requires var slot := Scheduler.FreeSlot(s.threads, s.n, 1); slot < Scheduler.MAX_THREADS && s.threads[slot] == t
    modifies mm`spaces, mm.pmm, mm.pmm.bitmap
    ensures mm.Valid() && mm.pmm.Surplus() == old(mm.pmm.Surplus()) && mm.pmm.ready == old(mm.pmm.ready)
    ensures mm.spaces == SpacesLeft(s, old(mm.spaces))
    ensures mm.pmm.Free() == old(mm.pmm.Free()) + SpaceFrames(s, old(mm.spaces))
  {
    hide Pmm.ClearBits, Invariant, Pmm.PageIsReserved, StackFrames, Scheduler.FreeSlot;
    if t.cr3 != 0 && t.cr3 != mm.kernelRoot * PAGE_SIZE {
      mm.DestroyAddressSpace(t.cr3);
    }
  }

  /** So is its stack, if it has another size. */
  method EmptyStack(mm: MemoryManager, t: Scheduler.Thread, ghost s: Scheduler.Table)
    requires mm.Valid() && Scheduler.Shaped(s) && mm.pmm.ready && StackApart(mm, s)
    requires var slot := Scheduler.FreeSlot(s.threads, s.n, 1); slot < Scheduler.MAX_THREADS && s.threads[slot] == t
    modifies mm.pmm, mm.pmm.bitmap
    ensures mm.Valid() && mm.pmm.Surplus() == old(mm.pmm.Surplus()) && mm.pmm.ready == old(mm.pmm.ready)
    ensures mm.pmm.Free() == old(mm.pmm.Free()) + StackFrames(s)
  {
    hide Pmm.ClearBits, Invariant, Pmm.PageIsReserved, Pmm.CoveredRange, Scheduler.FreeSlot;
    if t.stackLimit != 0 && t.stackPages != Scheduler.STACK_PAGES {
      GiveBackStack(mm, t.stackLimit, t.stackPages);
    }
  }

  /** The new thread's stack, unless there is no slot or the slot keeps one. */
  method StackForSlot(mm: MemoryManager, table: Scheduler.ThreadTable) returns (stack: nat)
    requires mm.Valid() && Scheduler.Shaped(table.Value()) && Owns(mm, table.Value())
    modifies mm`spaces, mm.pmm, mm.pmm.bitmap
    ensures mm.Valid() && mm.pmm.Surplus() == old(mm.pmm.Surplus()) && mm.pmm.ready == old(mm.pmm.ready)
    ensures mm.spaces == SpacesLeft(old(table.Value()), old(mm.spaces))
    ensures !NeedsStack(old(table.Value())) ==>
              stack == 0 && mm.pmm.Free() == FreeThen(old(table.Value()), old(mm.spaces), old(mm.pmm.Free()))
    ensures NeedsStack(old(table.Value())) ==>
              var free := FreeThen(old(table.Value()), old(mm.spaces), old(mm.pmm.Free()));
              && (stack == 0 <==> NoRun(free))
              && mm.pmm.Free() ==
                 (if stack == 0 then free else free - Pmm.PageRange(stack / PAGE_SIZE, Scheduler.STACK_PAGES))
  {
    hide Pmm.ClearBits, Invariant, Pmm.PageIsReserved, Pmm.PageRange, Pmm.RunAt, NoRun, SpaceFrames, StackFrames,
         SpacesLeft, Scheduler.FreeSlot, Scheduler.GivenSpace;
    stack := 0;
    ghost var s := table.Value();
    var slot := table.FindFree();
    if slot >= Scheduler.MAX_THREADS {
      NothingGiven(s, mm.spaces, mm.pmm.Free());
      return;
    }
    var t := table.threads[slot];
    assert s.threads[slot] == t;
    EmptySpace(mm, t, s);
    StillApart(s, old(mm.spaces), mm.spaces);
    EmptyStack(mm, t, s);
    assert mm.pmm.Free() == FreeThen(s, old(mm.spaces), old(mm.pmm.Free()));
    if t.stackLimit == 0 || t.stackPages != Scheduler.STACK_PAGES {
      stack := TakeRun(mm);
    }
  }

  lemma StillApart(s: Scheduler.Table, spaces: map<nat, Tables>, spaces': map<nat, Tables>)
    requires Scheduler.Shaped(s) && spaces' == SpacesLeft(s, spaces)
    requires forall k | k in spaces :: spaces[k].Values !! StackFrames(s)
    ensures forall k | k in spaces' :: spaces'[k].Values !! StackFrames(s)
  {
    hide StackFrames;
  }

  lemma NothingGiven(s: Scheduler.Table, spaces: map<nat, Tables>, free: set<nat>)
    requires Scheduler.Shaped(s) && Scheduler.FreeSlot(s.threads, s.n, 1) >= Scheduler.MAX_THREADS
    ensures FreeThen(s, spaces, free) == free && SpacesLeft(s, spaces) == spaces
  {
  }

  /**
    * `thread_create`: what the slot held goes back to the page allocator, and the new thread gets a stack unless one is
    * kept; none is found exactly when the frames that are then free hold no run long enough.
    */
  method CreateThread(mm: MemoryManager, table: Scheduler.ThreadTable) returns (stack: nat)
    requires mm.Valid() && Scheduler.Shaped(table.Value()) && Owns(mm, table.Value())
    requires table.threads as object != mm.pmm.bitmap
    modifies mm`spaces, mm.pmm, mm.pmm.bitmap, table`n, table.threads
    ensures mm.Valid() && mm.pmm.Surplus() == old(mm.pmm.Surplus()) && mm.pmm.ready == old(mm.pmm.ready)
    ensures table.Value() == old(Scheduler.Step(table.Value(), Scheduler.Op.CreateThread(stack)))
    ensures mm.spaces == SpacesLeft(old(table.Value()), old(mm.spaces))
    ensures !NeedsStack(old(table.Value())) ==>
              stack == 0 && mm.pmm.Free() == FreeThen(old(table.Value()), old(mm.spaces), old(mm.pmm.Free()))
    ensures NeedsStack(old(table.Value())) ==>
              var free := FreeThen(old(table.Value()), old(mm.spaces), old(mm.pmm.Free()));
              && (stack == 0 <==> NoRun(free))
              && mm.pmm.Free() ==
                 (if stack == 0 then free else free - Pmm.PageRange(stack / PAGE_SIZE, Scheduler.STACK_PAGES))
  {
    hide Pmm.ClearBits, Invariant, Pmm.PageIsReserved, Pmm.PageRange, NoRun, FreeThen, SpacesLeft, Owns, NeedsStack,
         Scheduler.CreateStep;
    stack := StackForSlot(mm, table);
    var _, _ := table.CreateThread(stack);
  }

  // ---------- the end of a thread ----------

  /** `thread_exit` up to the final yield: the thread's windows go, all of them exactly if none has the identifier zero;
      then the thread is terminated and the blocked ones wake up. */
  method ExitThread(table: Scheduler.ThreadTable, windows: Windows.WindowTable)
    requires Scheduler.Shaped(table.Value()) && windows.Valid() && table.threads as object != windows.slots
    modifies table.threads, windows`count, windows.slots
    ensures table.Value() == old(Scheduler.Step(table.Value(), Scheduler.Op.Exit))
    ensures table.threads[table.current] == old(table.threads[table.current]).(state := Scheduler.Terminated)
    ensures forall i | 0 <= i < table.n && i != table.current && old(table.threads[i]).state.Blocked? ::
              table.threads[i] == old(table.threads[i]).(state := Scheduler.Ready)
    ensures forall i | 0 <= i < table.n && i != table.current && !old(table.threads[i]).state.Blocked? ::
              table.threads[i] == old(table.threads[i])
    ensures windows.Valid()
    ensures var id := old(table.threads[table.current].id);
            && windows.Current() == old(WindowOrder.Step(windows.Current(), WindowOrder.DestroyThread(id)))
            && (WindowOrder.Distinct(old(windows.Current().ws)) ==>
                  (!WindowOrder.Owns(windows.Current().ws, id) <==>
                   forall w | w in old(windows.Current().ws) && w.owner == id :: w.id != 0))
  {
    hide WindowOrder.Distinct, WindowOrder.DestroyedAll, WindowOrder.Owns;
    var id := table.threads[table.current].id;
    if WindowOrder.Distinct(windows.Current().ws) {
      WindowOrder.AllDestroyed(windows.Current().ws, id);
    }
    var _ := windows.DestroyThreadWindows(id);
    table.Exit();
  }
}
