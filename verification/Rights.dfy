/** What a walk through the page tables permits (Intel SDM Vol. 3A, section 4.6), and what mapping a page does to the
    entries on which that depends. */
module Rights {
  import opened Words
  import opened PageTables

  datatype Right = Writing | UserMode

  /** Bit 1 of an entry permits writing, bit 2 access in user mode. */
  predicate Gives(w: Word, a: Right) {
    match a
    case Writing => w / 2 % 2 == 1
    case UserMode => w / 4 % 2 == 1
  }

  /** A right needs its bit in every entry of the walk, from the table in frame `f` at depth `d` on. */
  predicate Granted(mem: Memory, f: nat, d: nat, v: nat, a: Right)
    requires d <= 3
    decreases 3 - d
  {
    var w := Load(mem, f, Index(d, v));
    && Present(w) && Gives(w, a)
    && (d == 3 || (d >= 1 && Huge(w)) || Granted(mem, HwFrame(w), d + 1, v, a))
  }

  /** What the last entry of the walk, that of the page itself, permits. */
  predicate PageGives(mem: Memory, f: nat, d: nat, v: nat, a: Right)
    requires d <= 3
    decreases 3 - d
  {
    var w := Load(mem, f, Index(d, v));
    && Present(w)
    && if d == 3 || (d >= 1 && Huge(w)) then Gives(w, a) else PageGives(mem, HwFrame(w), d + 1, v, a)
  }

  /** Rights at all addresses off the page of `u`, before and after a request for that page: each keeps the rights of
      its own entry, may be written exactly as before, and keeps user access; user access is new only if the request is
      for user mode and the page's own entry permits it. */
  ghost predicate RightsKept(mem: Memory, mem': Memory, root: nat, r: Region, u: nat, user: bool) {
    forall v: nat | InRegion(r, v) && !SamePage(u, v) :: RightsKeptAt(mem, mem', root, 0, v, user)
  }

  ghost predicate RightsKeptAt(mem: Memory, mem': Memory, f: nat, d: nat, v: nat, user: bool)
    requires d <= 3
  {
    && (PageGives(mem', f, d, v, Writing) <==> PageGives(mem, f, d, v, Writing))
    && (PageGives(mem', f, d, v, UserMode) <==> PageGives(mem, f, d, v, UserMode))
    && (Granted(mem', f, d, v, Writing) <==> Granted(mem, f, d, v, Writing))
    && (Granted(mem, f, d, v, UserMode) ==> Granted(mem', f, d, v, UserMode))
    && (Granted(mem', f, d, v, UserMode) ==>
          Granted(mem, f, d, v, UserMode) || (user && PageGives(mem, f, d, v, UserMode)))
  }

  /** Every address of the region has the rights that it had. */
  ghost predicate SameRights(mem: Memory, mem': Memory, root: nat, r: Region) {
    forall v: nat, a | InRegion(r, v) :: Granted(mem', root, 0, v, a) <==> Granted(mem, root, 0, v, a)
  }

  /** Access at all needs a translation. */
  lemma {:induction false} GrantedTranslates(mem: Memory, f: nat, d: nat, v: nat, a: Right)
    requires d <= 3
    ensures Granted(mem, f, d, v, a) ==> HwFrom(mem, f, d, v).Some?
    decreases 3 - d
  {
    hide Present, Gives, Huge, Index;
    if d < 3 {
      GrantedTranslates(mem, HwFrame(Load(mem, f, Index(d, v))), d + 1, v, a);
    }
  }

  lemma {:induction false} GrantedPage(mem: Memory, f: nat, d: nat, v: nat, a: Right)
    requires d <= 3
    ensures Granted(mem, f, d, v, a) ==> PageGives(mem, f, d, v, a)
    decreases 3 - d
  {
    hide Present, Gives, Huge, Index;
    if d < 3 {
      GrantedPage(mem, HwFrame(Load(mem, f, Index(d, v))), d + 1, v, a);
    }
  }

  // ---------- entries ----------

  /** Entry `x` of the table at `p`, zero without such a table. */
  ghost function Entry(mem: Memory, tab: Tables, p: Pos, x: nat): Word {
    if p in tab && tab[p] < |mem| && x < ENTRIES then mem[tab[p]][x] else 0
  }

  /** A pointer to a new table: present, writable, for user mode if the request is, and no other bit below the
      address. */
  predicate NewPointer(w: Word, user: bool) {
    w % 4096 == if user then 7 else 3
  }

  /** What a walk that maps a page may leave of an entry at depth `d`: the entry; a pointer with its user bit set, if
      the request is for user mode; or a new pointer in an absent one. */
  predicate EntryKept(d: nat, w: Word, w': Word, user: bool) {
    || w' == w
    || (d < 3 && user && IsTable(d, w) && !User(w) && w' == w + 4)
    || (d < 3 && !Present(w) && NewPointer(w', user))
  }

  ghost predicate Marks(mem: Memory, mem': Memory, tab: Tables, tab': Tables, user: bool) {
    forall p, x: nat | p in tab' && x < ENTRIES ::
      EntryKept(Depth(p), Entry(mem, tab, p, x), Entry(mem', tab', p, x), user)
  }

  /** The same apart from the page-table entry of `u`. Entries of page tables are thus exactly as they were, and those
      of new page tables are zero. */
  ghost predicate MarksBut(mem: Memory, mem': Memory, tab: Tables, tab': Tables, user: bool, u: nat) {
    forall p, x: nat | p in tab' && x < ENTRIES && (p != PathTo(u, 3) || x != Index(3, u)) ::
      EntryKept(Depth(p), Entry(mem, tab, p, x), Entry(mem', tab', p, x), user)
  }

  /** Bits 0 to 2 of an entry, and those that setting bit 2 keeps. */
  lemma ThreeBits(w: Word)
    ensures Present(w) <==> w % 8 in {1, 3, 5, 7}
    ensures Gives(w, Writing) <==> w % 8 in {2, 3, 6, 7}
    ensures Gives(w, UserMode) <==> w % 8 in {4, 5, 6, 7}
    ensures User(w) <==> Gives(w, UserMode)
  {
    var h, r := w / 8, w % 8;
    assert w == h * 8 + r;
    ModUnique(w, 2, h * 4 + r / 2, r % 2);
    ModUnique(w, 4, h * 2 + r / 4, r % 4);
    ModUnique(w / 2, 2, h * 2 + r / 4, r / 2 % 2);
    ModUnique(w / 4, 2, h, r / 4);
  }

  /** Setting the user bit. */
  lemma WithUser(w: Word, w': Word)
    requires !User(w) && w' == w + 4
    ensures User(w') && (Present(w') <==> Present(w)) && (Gives(w', Writing) <==> Gives(w, Writing))
  {
    ThreeBits(w);
    ThreeBits(w');
    var h, r := w / 8, w % 8;
    assert w == h * 8 + r;
    ModUnique(w', 8, h, r + 4);
  }

  lemma NewPointerBits(w: Word, user: bool)
    requires NewPointer(w, user)
    ensures Present(w) && Gives(w, Writing) && (User(w) <==> user)
  {
    ThreeBits(w);
    var q := w / 4096;
    ModUnique(w, 8, q * 512, if user then 7 else 3);
  }

  lemma EntryTwice(d: nat, a: Word, b: Word, c: Word, user: bool)
    requires EntryKept(d, a, b, user) && EntryKept(d, b, c, user)
    ensures EntryKept(d, a, c, user)
  {
    hide Present, User, Huge, NewPointer;
    if b != a && c != b {
      if Present(a) {
        WithUser(a, b);
      } else {
        NewPointerBits(b, user);
      }
    }
  }

  lemma MarksTwice(a: Memory, b: Memory, c: Memory, s: Tables, t: Tables, u: Tables, user: bool)
    requires Marks(a, b, s, t, user) && Marks(b, c, t, u, user) && Extends(s, t)
    ensures Marks(a, c, s, u, user)
  {
    hide EntryKept;
    forall p, x: nat | p in u && x < ENTRIES
      ensures EntryKept(Depth(p), Entry(a, s, p, x), Entry(c, u, p, x), user)
    {
      if p in t {
        EntryTwice(Depth(p), Entry(a, s, p, x), Entry(b, t, p, x), Entry(c, u, p, x), user);
      } else {
        assert Entry(a, s, p, x) == 0 == Entry(b, t, p, x);
      }
    }
  }

  lemma NothingMarked(mem: Memory, tab: Tables, user: bool)
    ensures Marks(mem, mem, tab, tab, user)
  {
    hide Entry;
  }

  /** Setting the user bit of a pointer. */
  lemma UserMarked(mem: Memory, tab: Tables, p: Pos, x: nat)
    requires Bounded(tab, |mem|) && Injective(tab) && p in tab && Depth(p) < 3 && x < ENTRIES
    requires IsTable(Depth(p), mem[tab[p]][x]) && !User(mem[tab[p]][x]) && mem[tab[p]][x] + 4 < U64
    ensures Marks(mem, Store(mem, tab[p], x, mem[tab[p]][x] + 4), tab, tab, true)
  {
    hide IsTable, User, Injective;
    var w := mem[tab[p]][x] + 4;
    forall q, y: nat | q in tab && y < ENTRIES
      ensures EntryKept(Depth(q), Entry(mem, tab, q, y), Entry(Store(mem, tab[p], x, w), tab, q, y), true)
    {
      StoreElsewhere(mem, tab, p, x, w, q, y);
    }
  }

  /** Hanging a zeroed table into an absent entry. */
  lemma TableMarked(mem: Memory, tab: Tables, p: Pos, x: nat, f: nat, w: Word, user: bool)
    requires Bounded(tab, |mem|) && Injective(tab) && p in tab && Depth(p) < 3 && x < ENTRIES && Sub(p, x) !in tab
    requires !Present(mem[tab[p]][x]) && f !in tab.Values && f < |mem| && NewPointer(w, user)
    ensures Marks(mem, Store(mem[f := ZeroTable()], tab[p], x, w), tab, tab[Sub(p, x) := f], user)
  {
    hide Present, Injective, NewPointer;
    var m := mem[f := ZeroTable()];
    var mem', tab' := Store(m, tab[p], x, w), tab[Sub(p, x) := f];
    assert tab[p] in tab.Values;
    forall q, y: nat | q in tab' && y < ENTRIES
      ensures EntryKept(Depth(q), Entry(mem, tab, q, y), Entry(mem', tab', q, y), user)
    {
      if q in tab {
        assert tab[q] in tab.Values;
        StoreElsewhere(m, tab, p, x, w, q, y);
      } else {
        assert mem'[f] == ZeroTable();
      }
    }
  }

  /** The last write of a mapping. */
  lemma LeafMarked(a: Memory, b: Memory, tab: Tables, tab': Tables, user: bool, u: nat, w: Word)
    requires Marks(a, b, tab, tab', user) && Bounded(tab', |b|) && Injective(tab') && PathTo(u, 3) in tab'
    ensures MarksBut(a, Store(b, tab'[PathTo(u, 3)], Index(3, u), w), tab, tab', user, u)
  {
    hide EntryKept, Injective, Index;
    var p, x := PathTo(u, 3), Index(3, u);
    var c := Store(b, tab'[p], x, w);
    forall q, y: nat | q in tab' && y < ENTRIES && (q != p || y != x)
      ensures EntryKept(Depth(q), Entry(a, tab, q, y), Entry(c, tab', q, y), user)
    {
      StoreElsewhere(b, tab', p, x, w, q, y);
    }
  }

  lemma MarksAlso(mem: Memory, mem': Memory, tab: Tables, tab': Tables, user: bool, u: nat)
    requires Marks(mem, mem', tab, tab', user)
    ensures MarksBut(mem, mem', tab, tab', user, u)
  {
    hide EntryKept, Entry;
  }

  /** A pointer for user mode stays one. */
  lemma UserKept(mem: Memory, mem': Memory, tab: Tables, tab': Tables, p: Pos, x: nat)
    requires Marks(mem, mem', tab, tab', true) && p in tab' && x < ENTRIES && Gives(Entry(mem, tab, p, x), UserMode)
    ensures Gives(Entry(mem', tab', p, x), UserMode)
  {
    hide Entry, NewPointer, Present, Huge;
    var w, w' := Entry(mem, tab, p, x), Entry(mem', tab', p, x);
    assert EntryKept(Depth(p), w, w', true);
    if w' != w {
      if Present(w) {
        WithUser(w, w');
      } else {
        NewPointerBits(w', true);
      }
    }
  }

  /** The last write leaves the pointers alone. */
  lemma PointersBesideLeaf(mem: Memory, tab: Tables, u: nat, w: Word, a: Right)
    requires Bounded(tab, |mem|) && Injective(tab) && PathTo(u, 3) in tab && PointersGive(mem, tab, u, a)
    ensures PointersGive(Store(mem, tab[PathTo(u, 3)], Index(3, u), w), tab, u, a)
  {
    hide Gives, Injective, Index;
    var p, x := PathTo(u, 3), Index(3, u);
    var mem' := Store(mem, tab[p], x, w);
    DepthOfPath(u, 3);
    forall d: nat | d < 3 && PathTo(u, d + 1) in tab
      ensures Gives(Entry(mem', tab, PathTo(u, d), Index(d, u)), a)
    {
      DepthOfPath(u, d);
      if PathTo(u, d) in tab {
        StoreElsewhere(mem, tab, p, x, w, PathTo(u, d), Index(d, u));
      }
      assert Gives(Entry(mem, tab, PathTo(u, d), Index(d, u)), a);
    }
  }

  /** An entry with bits 1 to 11 of the flags and bit 0. */
  lemma LowFlags(w: Word, flags: Word)
    requires w % 4096 == flags % 4096 + (1 - flags % 2)
    ensures Present(w) && (Gives(w, Writing) <==> Gives(flags, Writing))
    ensures Gives(w, UserMode) <==> Gives(flags, UserMode)
  {
    hide Present, Gives;
    ThreeBits(w);
    ThreeBits(flags);
    LowThree(w);
    LowThree(flags);
    SameLow(w % 4096, flags % 4096);
    LowCases(flags % 8, w % 8);
  }

  lemma LowCases(s: nat, r: nat)
    requires s < 8 && r == s + (1 - s % 2)
    ensures r in {1, 3, 5, 7} && (r in {2, 3, 6, 7} <==> s in {2, 3, 6, 7})
    ensures (r in {4, 5, 6, 7} <==> s in {4, 5, 6, 7})
  {
  }

  lemma SameLow(r: nat, s: nat)
    requires r == s + (1 - s % 2)
    ensures r % 8 == s % 8 + (1 - s % 8 % 2)
  {
    var h, l := s / 8, s % 8;
    assert s == h * 8 + l;
    ModUnique(s, 2, h * 4 + l / 2, l % 2);
    ModUnique(r, 8, h, l + (1 - l % 2));
  }

  lemma LowThree(w: Word)
    ensures w % 8 == w % 4096 % 8 && w % 2 == w % 4096 % 2
  {
    var q, r := w / 4096, w % 4096;
    assert w == q * 4096 + r;
    ModUnique(w, 8, q * 512 + r / 8, r % 8);
    ModUnique(w, 2, q * 2048 + r / 2, r % 2);
  }

  /** What a mapping gives: user access exactly if the flags have the bit; writing exactly if they have it and the
      pointers that were there permit it. Everything else keeps its rights. */
  lemma MappedRights(a: Memory, b: Memory, root: nat, tab: Tables, tab': Tables, r: Region, flags: Word, u: nat,
                     w: Word)
    requires Tree(a, root, tab, r) && Tree(b, root, tab', r) && Extends(tab, tab')
    requires Marks(a, b, tab, tab', User(flags))
    requires InRegion(r, u) && PathTo(u, 3) in tab' && (User(flags) ==> PointersGive(b, tab', u, UserMode))
    requires Tree(Store(b, tab'[PathTo(u, 3)], Index(3, u), w), root, tab', r)
    requires w % 4096 == flags % 4096 + (1 - flags % 2)
    ensures var c := Store(b, tab'[PathTo(u, 3)], Index(3, u), w);
            && MarksBut(a, c, tab, tab', User(flags), u) && RightsKept(a, c, root, r, u, User(flags))
            && (Granted(c, root, 0, u, UserMode) <==> Gives(flags, UserMode))
            && (PageGives(c, root, 0, u, UserMode) <==> Gives(flags, UserMode))
            && (Granted(c, root, 0, u, Writing) <==> Gives(flags, Writing) && PointersGive(a, tab, u, Writing))
  {
    hide Present, Huge, Index, InRegion, Linking, Granted, Marks, MarksBut, RightsKept, PointersGive, Gives, Shape,
         Extends, Injective;
    var c := Store(b, tab'[PathTo(u, 3)], Index(3, u), w);
    LeafMarked(a, b, tab, tab', User(flags), u, w);
    RightsAfter(a, c, root, tab, tab', r, User(flags), u);
    assert Entry(c, tab', PathTo(u, 3), Index(3, u)) == w;
    LowFlags(w, flags);
    ThreeBits(flags);
    PathGranted(c, root, tab', r, u, UserMode);
    PathGranted(c, root, tab', r, u, Writing);
    PointersWritable(a, c, root, tab, tab', r, User(flags), u);
    if User(flags) {
      PointersBesideLeaf(b, tab', u, w, UserMode);
    }
  }

  // ---------- rights inside a tree ----------

  /** One step of a walk inside a tree. */
  lemma GrantedStep(mem: Memory, root: nat, tab: Tables, r: Region, v: nat, d: nat, a: Right)
    requires Tree(mem, root, tab, r) && InRegion(r, v) && d <= 3 && PathTo(v, d) in tab
    ensures var f, w := tab[PathTo(v, d)], Entry(mem, tab, PathTo(v, d), Index(d, v));
            if d < 3 && PathTo(v, d + 1) in tab then
              IsTable(d, w)
              && (Granted(mem, f, d, v, a) <==> Gives(w, a) && Granted(mem, tab[PathTo(v, d + 1)], d + 1, v, a))
            else (d < 3 ==> !IsTable(d, w)) && (Granted(mem, f, d, v, a) <==> Present(w) && Gives(w, a))
  {
    hide Present, Huge, Index, Injective, Gives, Linking;
    HwStep(mem, root, tab, r, v, d);
  }

  lemma PageStep(mem: Memory, root: nat, tab: Tables, r: Region, v: nat, d: nat, a: Right)
    requires Tree(mem, root, tab, r) && InRegion(r, v) && d <= 3 && PathTo(v, d) in tab
    ensures var f, w := tab[PathTo(v, d)], Entry(mem, tab, PathTo(v, d), Index(d, v));
            if d < 3 && PathTo(v, d + 1) in tab then
              PageGives(mem, f, d, v, a) <==> PageGives(mem, tab[PathTo(v, d + 1)], d + 1, v, a)
            else PageGives(mem, f, d, v, a) <==> Present(w) && Gives(w, a)
  {
    hide Present, Huge, Index, Injective, Gives, Linking;
    HwStep(mem, root, tab, r, v, d);
  }

  /** In a table that was not there before, nothing but the entry of `u` grants anything. */
  lemma {:induction false} NewWalk(mem: Memory, mem': Memory, root: nat, tab: Tables, tab': Tables, r: Region,
                                   user: bool, u: nat, v: nat, d: nat, a: Right)
    requires Shape(tab, root, r) && Tree(mem', root, tab', r) && MarksBut(mem, mem', tab, tab', user, u)
    requires InRegion(r, v) && d <= 3 && PathTo(v, d) in tab' && PathTo(v, d) !in tab && !SamePage(u, v)
    ensures !Granted(mem', tab'[PathTo(v, d)], d, v, a) && !PageGives(mem', tab'[PathTo(v, d)], d, v, a)
    decreases 3 - d
  {
    hide Present, Huge, Index, Injective, Gives, Linking, SamePage, Covers, Granted, PageGives;
    var p := PathTo(v, d);
    GrantedStep(mem', root, tab', r, v, d, a);
    PageStep(mem', root, tab', r, v, d, a);
    PathsOfPages(u, v);
    DepthOfPath(u, 3);
    assert EntryKept(d, Entry(mem, tab, p, Index(d, v)), Entry(mem', tab', p, Index(d, v)), user);
    ZeroAbsent();
    if d < 3 && PathTo(v, d + 1) in tab' {
      assert PathTo(v, d + 1).parent == p;
      NewWalk(mem, mem', root, tab, tab', r, user, u, v, d + 1, a);
    } else if d < 3 {
      NewIsPointer(d, Entry(mem', tab', p, Index(d, v)), user);
    }
  }

  lemma ZeroAbsent()
    ensures !Present(0)
  {
  }

  lemma DepthOfPath(u: nat, d: nat)
    ensures Depth(PathTo(u, d)) == d
  {
  }

  lemma NewIsPointer(d: nat, w: Word, user: bool)
    ensures NewPointer(w, user) ==> IsTable(d, w)
  {
    if NewPointer(w, user) {
      NewPointerBits(w, user);
      var q := w / 4096;
      ModUnique(w, 128, q * 32, if user then 7 else 3);
      ModUnique(w / 128, 2, q * 16, 0);
    }
  }

  lemma {:induction false} RightsWalk(mem: Memory, mem': Memory, root: nat, tab: Tables, tab': Tables, r: Region,
                                      user: bool, u: nat, v: nat, d: nat)
    requires Tree(mem, root, tab, r) && Tree(mem', root, tab', r) && Extends(tab, tab')
    requires MarksBut(mem, mem', tab, tab', user, u)
    requires InRegion(r, v) && d <= 3 && PathTo(v, d) in tab && !SamePage(u, v)
    ensures RightsKeptAt(mem, mem', tab[PathTo(v, d)], d, v, user)
    decreases 3 - d
  {
    hide Present, Huge, Index, Injective, Gives, Linking, Shape, SamePage, Covers, Granted, User, PageGives;
    PageStep(mem, root, tab, r, v, d, UserMode);
    PageStep(mem', root, tab', r, v, d, UserMode);
    PageStep(mem, root, tab, r, v, d, Writing);
    PageStep(mem', root, tab', r, v, d, Writing);
    var p := PathTo(v, d);
    var w, w' := Entry(mem, tab, p, Index(d, v)), Entry(mem', tab', p, Index(d, v));
    PathsOfPages(u, v);
    DepthOfPath(u, 3);
    assert EntryKept(d, w, w', user);
    GrantedStep(mem, root, tab, r, v, d, Writing);
    GrantedStep(mem', root, tab', r, v, d, Writing);
    GrantedStep(mem, root, tab, r, v, d, UserMode);
    GrantedStep(mem', root, tab', r, v, d, UserMode);
    if d < 3 {
      if PathTo(v, d + 1) in tab {
        assert PathTo(v, d + 1) in tab';
        RightsWalk(mem, mem', root, tab, tab', r, user, u, v, d + 1);
        if w' != w {
          WithUser(w, w');
          ThreeBits(w');
          GrantedPage(mem, tab[PathTo(v, d + 1)], d + 1, v, UserMode);
        }
      } else if w' != w {
        NewIsPointer(d, w', user);
        assert Shape(tab, root, r);
        NewWalk(mem, mem', root, tab, tab', r, user, u, v, d + 1, Writing);
        NewWalk(mem, mem', root, tab, tab', r, user, u, v, d + 1, UserMode);
      }
    }
  }

  lemma RightsAfter(mem: Memory, mem': Memory, root: nat, tab: Tables, tab': Tables, r: Region, user: bool, u: nat)
    requires Tree(mem, root, tab, r) && Tree(mem', root, tab', r) && Extends(tab, tab')
    requires MarksBut(mem, mem', tab, tab', user, u)
    ensures RightsKept(mem, mem', root, r, u, user)
  {
    hide MarksBut, InRegion, SamePage, Linking, Injective, RightsKeptAt, Extends;
    forall v: nat | InRegion(r, v) && !SamePage(u, v)
      ensures RightsKeptAt(mem, mem', root, 0, v, user)
    {
      assert PathTo(v, 0) == Root;
      RightsWalk(mem, mem', root, tab, tab', r, user, u, v, 0);
    }
  }

  /** Tables that hold what they held grant what they granted. */
  lemma RightsUntouched(mem: Memory, mem': Memory, root: nat, tab: Tables, r: Region)
    requires Tree(mem, root, tab, r) && Tree(mem', root, tab, r) && |mem'| == |mem|
    requires forall p | p in tab :: mem'[tab[p]] == mem[tab[p]]
    ensures SameRights(mem, mem', root, r)
  {
    hide InRegion, SamePage, Linking, Injective, Shape, EntryKept;
    assert Root in tab && tab[Root] == root by { RootThere(tab, root, r); }
    forall v: nat, a | InRegion(r, v)
      ensures Granted(mem', root, 0, v, a) <==> Granted(mem, root, 0, v, a)
    {
      OtherPage(v);
      assert MarksBut(mem, mem', tab, tab, false, v + PAGE_SIZE) by { hide Index, PathTo; SameMarks(); }
      assert PathTo(v, 0) == Root;
      RightsWalk(mem, mem', root, tab, tab, r, false, v + PAGE_SIZE, v, 0);
    }
  }

  lemma RootThere(tab: Tables, root: nat, r: Region)
    requires Shape(tab, root, r)
    ensures Root in tab && tab[Root] == root
  {
  }

  lemma SameMarks()
    ensures forall d: nat, w: Word, user: bool :: EntryKept(d, w, w, user)
  {
  }

  lemma OtherPage(v: nat)
    ensures !SamePage(v + PAGE_SIZE, v)
  {
    var p := v / PAGE_SIZE;
    assert (v + PAGE_SIZE) / PAGE_SIZE == p + 1;
    if (p + 1) % 0x10_0000_0000 == p % 0x10_0000_0000 {
      NextDiffers(p, 0x10_0000_0000);
    }
  }

  lemma NextDiffers(p: nat, m: nat)
    requires m > 1
    ensures (p + 1) % m != p % m
  {
    var q, s := p / m, p % m;
    assert p == q * m + s;
    if s + 1 < m {
      ModUnique(p + 1, m, q, s + 1);
    } else {
      assert (q + 1) * m == q * m + m;
      ModUnique(p + 1, m, q + 1, 0);
    }
  }

  /** Rights belong to pages. */
  lemma {:induction false} GrantedSamePage(mem: Memory, f: nat, d: nat, u: nat, v: nat, a: Right)
    requires SamePage(u, v) && d <= 3
    ensures Granted(mem, f, d, u, a) <==> Granted(mem, f, d, v, a)
    ensures PageGives(mem, f, d, u, a) <==> PageGives(mem, f, d, v, a)
    decreases 3 - d
  {
    hide Present, Huge, Index, Gives, SamePage;
    SamePageIndices(u, v);
    assert d == 0 || d == 1 || d == 2 || d == 3;
    if d < 3 {
      GrantedSamePage(mem, HwFrame(Load(mem, f, Index(d, u))), d + 1, u, v, a);
    }
  }

  // ---------- the mapped page ----------

  /** The tables that are there on the way to `u` are pointed to with the right `a`. */
  ghost predicate PointersGive(mem: Memory, tab: Tables, u: nat, a: Right) {
    forall d: nat | d < 3 && PathTo(u, d + 1) in tab :: Gives(Entry(mem, tab, PathTo(u, d), Index(d, u)), a)
  }

  /** Every pointer of a tree permits writing, as in the spaces that `vmm_create_address_space` makes. */
  ghost predicate Open(mem: Memory, tab: Tables) {
    forall p, x | p in tab && Sub(p, x) in tab :: Gives(Entry(mem, tab, p, x), Writing)
  }

  lemma OpenGives(mem: Memory, tab: Tables, root: nat, r: Region, u: nat)
    requires Open(mem, tab) && Shape(tab, root, r)
    ensures PointersGive(mem, tab, u, Writing)
  {
    hide Gives, Entry, Index;
    forall d: nat | d < 3 && PathTo(u, d + 1) in tab
      ensures Gives(Entry(mem, tab, PathTo(u, d), Index(d, u)), Writing)
    {
      assert PathTo(u, d + 1) == Sub(PathTo(u, d), Index(d, u));
      assert PathTo(u, d + 1).parent in tab;
    }
  }

  lemma OpenKept(mem: Memory, mem': Memory, root: nat, tab: Tables, tab': Tables, r: Region, user: bool, u: nat)
    requires Tree(mem, root, tab, r) && Tree(mem', root, tab', r) && MarksBut(mem, mem', tab, tab', user, u)
    requires Open(mem, tab)
    ensures Open(mem', tab')
  {
    hide Present, Huge, Index, Injective, Gives, Covers, User, NewPointer;
    DepthOfPath(u, 3);
    forall p, x | p in tab' && Sub(p, x) in tab'
      ensures Gives(Entry(mem', tab', p, x), Writing)
    {
      assert Sub(p, x).parent == p;
      assert Linked(mem', tab', p, x);
      var w, w' := Entry(mem, tab, p, x), Entry(mem', tab', p, x);
      assert EntryKept(Depth(p), w, w', user);
      ZeroAbsent();
      assert p in tab ==> Linked(mem, tab, p, x);
      if w' != w && Present(w) {
        WithUser(w, w');
      } else if w' != w {
        NewPointerBits(w', user);
      }
    }
  }

  /** A right for the page of `u` needs its bit in the page's entry and in each pointer on the way. */
  lemma PathGranted(mem: Memory, root: nat, tab: Tables, r: Region, u: nat, a: Right)
    requires Tree(mem, root, tab, r) && InRegion(r, u) && PathTo(u, 3) in tab
    ensures PathTo(u, 1) in tab && PathTo(u, 2) in tab
    ensures var w := Entry(mem, tab, PathTo(u, 3), Index(3, u));
            && (Granted(mem, root, 0, u, a) <==> PointersGive(mem, tab, u, a) && Present(w) && Gives(w, a))
            && (PageGives(mem, root, 0, u, a) <==> Present(w) && Gives(w, a))
  {
    hide Present, Huge, Index, Injective, Gives, Linking, Covers, Granted, Entry, PageGives;
    PageStep(mem, root, tab, r, u, 0, a);
    PageStep(mem, root, tab, r, u, 1, a);
    PageStep(mem, root, tab, r, u, 2, a);
    PageStep(mem, root, tab, r, u, 3, a);
    assert PathTo(u, 3).parent == PathTo(u, 2) && PathTo(u, 2).parent == PathTo(u, 1);
    assert PathTo(u, 0) == Root;
    GrantedStep(mem, root, tab, r, u, 0, a);
    GrantedStep(mem, root, tab, r, u, 1, a);
    GrantedStep(mem, root, tab, r, u, 2, a);
    GrantedStep(mem, root, tab, r, u, 3, a);
    ThreePointers(mem, tab, u, a);
  }

  lemma ThreePointers(mem: Memory, tab: Tables, u: nat, a: Right)
    requires PathTo(u, 1) in tab && PathTo(u, 2) in tab && PathTo(u, 3) in tab
    ensures PointersGive(mem, tab, u, a) <==>
            && Gives(Entry(mem, tab, PathTo(u, 0), Index(0, u)), a)
            && Gives(Entry(mem, tab, PathTo(u, 1), Index(1, u)), a)
            && Gives(Entry(mem, tab, PathTo(u, 2), Index(2, u)), a)
  {
    hide Gives, Entry, Index;
  }

  /** After a walk the pointers on the way permit writing exactly if those that were there did; new ones always do. */
  lemma PointersWritable(mem: Memory, mem': Memory, root: nat, tab: Tables, tab': Tables, r: Region, user: bool, u: nat)
    requires Tree(mem, root, tab, r) && Tree(mem', root, tab', r) && Extends(tab, tab')
    requires MarksBut(mem, mem', tab, tab', user, u) && PathTo(u, 3) in tab' && InRegion(r, u)
    ensures PointersGive(mem', tab', u, Writing) <==> PointersGive(mem, tab, u, Writing)
  {
    hide Present, Huge, Index, Injective, Gives, Covers, User, NewPointer, Entry, Linking, IsTable;
    forall d: nat | d < 3 && PathTo(u, d + 1) in tab'
      ensures var g, g' := Gives(Entry(mem, tab, PathTo(u, d), Index(d, u)), Writing),
                           Gives(Entry(mem', tab', PathTo(u, d), Index(d, u)), Writing);
              if PathTo(u, d + 1) in tab then g' <==> g else g'
    {
      PointerWritable(mem, mem', root, tab, tab', r, user, u, d);
    }
  }

  lemma PointerWritable(mem: Memory, mem': Memory, root: nat, tab: Tables, tab': Tables, r: Region, user: bool, u: nat,
                        d: nat)
    requires Tree(mem, root, tab, r) && Tree(mem', root, tab', r) && Extends(tab, tab')
    requires MarksBut(mem, mem', tab, tab', user, u) && InRegion(r, u) && d < 3 && PathTo(u, d + 1) in tab'
    ensures var g, g' := Gives(Entry(mem, tab, PathTo(u, d), Index(d, u)), Writing),
                         Gives(Entry(mem', tab', PathTo(u, d), Index(d, u)), Writing);
            if PathTo(u, d + 1) in tab then g' <==> g else g'
  {
    hide Present, Huge, Index, Injective, Gives, User, NewPointer;
    var p, x := PathTo(u, d), Index(d, u);
    assert PathTo(u, d + 1) == Sub(p, x);
    assert p in tab' && (Sub(p, x) in tab ==> p in tab) by { assert Sub(p, x).parent == p; }
    DepthOfPath(u, 3);
    DepthOfPath(u, d);
    PathCovered(r, u, d);
    assert Linked(mem', tab', p, x);
    assert p in tab ==> Linked(mem, tab, p, x);
    var w, w' := Entry(mem, tab, p, x), Entry(mem', tab', p, x);
    assert EntryKept(d, w, w', user);
    ZeroAbsent();
    if w' != w && Present(w) {
      WithUser(w, w');
    } else if w' != w {
      NewPointerBits(w', user);
    }
  }
}
