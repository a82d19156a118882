/** Four-level page tables in physical memory (vmm.c), the translation that the processor makes of them
    (Intel SDM Vol. 3A, section 4.5), and the effect of the single writes that the memory manager performs. */
module PageTables {
  import opened Options
  import opened Words
  import Pmm

  const ENTRIES: nat := 512

  type Table = t: seq<Word> | |t| == 512 witness seq(512, _ => 0)

  /** Physical memory, one table of 512 words for each page frame. */
  type Memory = seq<Table>

  function ZeroTable(): Table {
    seq(512, _ => 0)
  }

  // ---------- entries ----------

  predicate Present(w: Word) { w % 2 == 1 }

  predicate User(w: Word) { w / 4 % 2 == 1 }

  predicate Huge(w: Word) { w / 128 % 2 == 1 }

  /** `w & ~0xFFF` as the number of the frame it points to. Bit 63 stays part of the number. */
  function Frame(w: Word): nat { w / PAGE_SIZE }

  /** Bits 51:12, the frame that the processor uses. */
  function HwFrame(w: Word): nat { w / PAGE_SIZE % 0x100_0000_0000 }

  /** A read outside physical memory gives zero. */
  function Load(mem: Memory, f: nat, i: nat): Word
    requires i < ENTRIES
  {
    if f < |mem| then mem[f][i] else 0
  }

  function Store(mem: Memory, f: nat, i: nat, w: Word): Memory
    requires f < |mem| && i < ENTRIES
  {
    mem[f := mem[f][i := w]]
  }

  /** `(virt >> shift) & 0x1FF` for the table at depth `d`, the root being at depth 0. */
  function Index(d: nat, v: nat): (i: nat)
    ensures i < ENTRIES
  {
    if d == 0 then v / 0x80_0000_0000 % 512
    else if d == 1 then v / 0x4000_0000 % 512
    else if d == 2 then v / 0x20_0000 % 512
    else v / 0x1000 % 512
  }

  /** Equal bits 47:12. */
  predicate SamePage(u: nat, v: nat) {
    u / PAGE_SIZE % 0x10_0000_0000 == v / PAGE_SIZE % 0x10_0000_0000
  }

  lemma SamePageIndices(u: nat, v: nat)
    ensures SamePage(u, v) <==>
            && Index(0, u) == Index(0, v) && Index(1, u) == Index(1, v)
            && Index(2, u) == Index(2, v) && Index(3, u) == Index(3, v)
  {
    hide Index;
    PageNumber(u);
    PageNumber(v);
    if SamePage(u, v) {
      DigitsUnique(Index(0, u), Index(1, u), Index(2, u), Index(3, u), Index(0, v), Index(1, v), Index(2, v),
                   Index(3, v));
    }
  }

  lemma DigitsUnique(a: nat, b: nat, c: nat, d: nat, a': nat, b': nat, c': nat, d': nat)
    requires a < 512 && b < 512 && c < 512 && d < 512 && a' < 512 && b' < 512 && c' < 512 && d' < 512
    requires a * 0x800_0000 + b * 0x4_0000 + c * 512 + d == a' * 0x800_0000 + b' * 0x4_0000 + c' * 512 + d'
    ensures a == a' && b == b' && c == c' && d == d'
  {
  }

  /** The page number is made of the four indices. */
  lemma PageNumber(v: nat)
    ensures v / PAGE_SIZE % 0x10_0000_0000 ==
            Index(0, v) * 0x800_0000 + Index(1, v) * 0x4_0000 + Index(2, v) * 512 + Index(3, v)
  {
    var p := v / PAGE_SIZE;
    DivDiv(v, PAGE_SIZE, 512);
    DivDiv(v, 0x20_0000, 512);
    DivDiv(v, 0x4000_0000, 512);
    Digits(p);
  }

  lemma Digits(p: nat)
    ensures p % 0x10_0000_0000 ==
            p / 512 / 512 / 512 % 512 * 0x800_0000 + p / 512 / 512 % 512 * 0x4_0000 + p / 512 % 512 * 512 + p % 512
  {
    var q := p / 512;
    var s := q / 512;
    var t := s / 512;
    DigitsOf(p, q, s, t, t / 512, p % 512, q % 512, s % 512, t % 512);
  }

  lemma DigitsOf(p: nat, q: nat, s: nat, t: nat, m: nat, d: nat, c: nat, b: nat, a: nat)
    requires p == q * 512 + d && q == s * 512 + c && s == t * 512 + b && t == m * 512 + a
    requires a < 512 && b < 512 && c < 512 && d < 512
    ensures p % 0x10_0000_0000 == a * 0x800_0000 + b * 0x4_0000 + c * 512 + d
  {
    ModUnique(p, 0x10_0000_0000, m, a * 0x800_0000 + b * 0x4_0000 + c * 512 + d);
  }

  // ---------- the processor's walk ----------

  /** Translation from the table in frame `f` at depth `d`; a set PS bit ends the walk at a large page. */
  function HwFrom(mem: Memory, f: nat, d: nat, v: nat): Option<nat>
    requires d <= 3
    decreases 3 - d
  {
    var w := Load(mem, f, Index(d, v));
    if !Present(w) then None
    else if d == 3 then Some(HwFrame(w) * PAGE_SIZE + v % PAGE_SIZE)
    else if d == 1 && Huge(w) then Some(w / 0x4000_0000 % 0x40_0000 * 0x4000_0000 + v % 0x4000_0000)
    else if d == 2 && Huge(w) then Some(w / 0x20_0000 % 0x8000_0000 * 0x20_0000 + v % 0x20_0000)
    else HwFrom(mem, HwFrame(w), d + 1, v)
  }

  function Translate(mem: Memory, root: nat, v: nat): Option<nat> {
    HwFrom(mem, root, 0, v)
  }

  /** The walk of `vmm_get_phys`: every present entry is a pointer, PS bits are not looked at, bits 63:12 are the
      address. */
  function SoftFrom(mem: Memory, f: nat, d: nat, v: nat): Option<nat>
    requires d <= 3
    decreases 3 - d
  {
    var w := Load(mem, f, Index(d, v));
    if !Present(w) then None
    else if d == 3 then Some(Frame(w) * PAGE_SIZE + v % PAGE_SIZE)
    else SoftFrom(mem, Frame(w), d + 1, v)
  }

  /** Zero stands for "not mapped". */
  function GetPhys(mem: Memory, root: nat, v: nat): nat {
    match SoftFrom(mem, root, 0, v)
    case None => 0
    case Some(a) => a
  }

  // ---------- trees of tables ----------

  /** The place of a table: the root, or entry `idx` of the table at `parent`. */
  datatype Pos = Root | Sub(parent: Pos, idx: nat)

  function Depth(p: Pos): nat {
    match p
    case Root => 0
    case Sub(q, _) => Depth(q) + 1
  }

  /** The table at depth `d` that a walk to `v` visits. */
  function PathTo(v: nat, d: nat): (p: Pos)
    ensures Depth(p) == d
  {
    if d == 0 then Root else Sub(PathTo(v, d - 1), Index(d - 1, v))
  }

  /** The part of an address space that a tree describes: all of it, or only the user area [4 GiB, 512 GiB). */
  datatype Region = Whole | Private

  predicate Covers(r: Region, p: Pos, x: nat) {
    || r.Whole?
    || (match p
        case Root => x == 0
        case Sub(Root, _) => 4 <= x
        case _ => true)
  }

  predicate InRegion(r: Region, v: nat) {
    r.Whole? || (Index(0, v) == 0 && 4 <= Index(1, v))
  }

  /** The user area is [4 GiB, 512 GiB), in the 48 bits that translate. */
  lemma UserArea(v: nat)
    ensures InRegion(Private, v) <==> 0x1_0000_0000 <= v % 0x1_0000_0000_0000 < 0x80_0000_0000
  {
    hide Index;
    PageNumber(v);
    var q, m := v / PAGE_SIZE, v % PAGE_SIZE;
    var n, top := q % 0x10_0000_0000, q / 0x10_0000_0000;
    assert v == q * PAGE_SIZE + m && q == top * 0x10_0000_0000 + n;
    ModUnique(v, 0x1_0000_0000_0000, top, n * PAGE_SIZE + m);
  }

  lemma PathCovered(r: Region, v: nat, d: nat)
    requires InRegion(r, v) && d < 3
    ensures Covers(r, PathTo(v, d), Index(d, v))
  {
    assert PathTo(v, 0) == Root;
    assert PathTo(v, 1) == Sub(Root, Index(0, v));
    assert PathTo(v, 2) == Sub(PathTo(v, 1), Index(1, v));
  }

  /** A present entry at depth `d` that points to a further table and not to a large page. */
  predicate IsTable(d: nat, w: Word) {
    Present(w) && !(1 <= d && Huge(w))
  }

  type Tables = map<Pos, nat>

  /** Entry `x` of the table at `p` points to a table exactly if the tree has a child there, and then to that child. */
  ghost predicate Linked(mem: Memory, tab: Tables, p: Pos, x: nat)
    requires p in tab && tab[p] < |mem| && x < ENTRIES
  {
    var w := mem[tab[p]][x];
    && (IsTable(Depth(p), w) <==> Sub(p, x) in tab)
    && (Sub(p, x) in tab ==> Frame(w) == tab[Sub(p, x)])
  }

  ghost predicate Bounded(tab: Tables, size: nat) {
    forall p | p in tab :: tab[p] < Pmm.MAX_PAGES && tab[p] < size
  }

  /** Every table but the root hangs below another table of the tree, at an entry that the region covers. */
  ghost predicate Shape(tab: Tables, root: nat, r: Region) {
    && Root in tab && tab[Root] == root
    && (forall p | p in tab && p.Sub? ::
          p.parent in tab && p.idx < ENTRIES && Depth(p.parent) < 3 && Covers(r, p.parent, p.idx))
  }

  ghost predicate Injective(tab: Tables) {
    forall p, q | p in tab && q in tab && tab[p] == tab[q] :: p == q
  }

  ghost predicate Linking(mem: Memory, tab: Tables, r: Region)
    requires Bounded(tab, |mem|)
  {
    forall p, x: nat | p in tab && Depth(p) < 3 && x < ENTRIES && Covers(r, p, x) :: Linked(mem, tab, p, x)
  }

  /** `tab` lists, position by position, the frames of a tree of page tables below `root`: no frame occurs twice,
      every table but the root is pointed to by its parent, and nothing else is pointed to. */
  ghost predicate Tree(mem: Memory, root: nat, tab: Tables, r: Region) {
    Bounded(tab, |mem|) && Shape(tab, root, r) && Injective(tab) && Linking(mem, tab, r)
  }

  /** One step of the processor's walk inside a tree. */
  lemma HwStep(mem: Memory, root: nat, tab: Tables, r: Region, v: nat, d: nat)
    requires Tree(mem, root, tab, r) && InRegion(r, v) && d <= 3 && PathTo(v, d) in tab
    ensures var f := tab[PathTo(v, d)];
            var w := mem[f][Index(d, v)];
            && Load(mem, f, Index(d, v)) == w
            && (d < 3 ==> (IsTable(d, w) <==> PathTo(v, d + 1) in tab))
            && (d < 3 && PathTo(v, d + 1) in tab ==>
                  HwFrame(w) == Frame(w) == tab[PathTo(v, d + 1)] &&
                  HwFrom(mem, f, d, v) == HwFrom(mem, tab[PathTo(v, d + 1)], d + 1, v))
  {
    hide Present, Huge, Index, Injective;
    if d < 3 {
      PathCovered(r, v, d);
      assert Linked(mem, tab, PathTo(v, d), Index(d, v));
      assert PathTo(v, d + 1) == Sub(PathTo(v, d), Index(d, v));
    }
  }

  // ---------- the single writes ----------

  /** Every address of the region translates as before. */
  ghost predicate SameTranslation(mem: Memory, mem': Memory, root: nat, r: Region) {
    forall v: nat | InRegion(r, v) :: Translate(mem', root, v) == Translate(mem, root, v)
  }

  /** An entry that is not part of a large page after the write unless it was one before. */
  ghost predicate NoNewLargePage(mem: Memory, mem': Memory, tab: Tables, tab': Tables) {
    forall p, x: nat | p in tab' && x < ENTRIES && Depth(p) < 3 && tab'[p] < |mem'| && LargePage(mem'[tab'[p]][x]) ::
      p in tab && tab[p] < |mem| && LargePage(mem[tab[p]][x])
  }

  predicate LargePage(w: Word) {
    Present(w) && Huge(w)
  }

  /** Memory changes only in the tables of the tree and in entries the region covers. */
  ghost predicate Confined(mem: Memory, mem': Memory, tab: Tables, tab': Tables, r: Region) {
    && |mem'| == |mem| && Bounded(tab, |mem|)
    && (forall f | 0 <= f < |mem| && f !in tab'.Values :: mem'[f] == mem[f])
    && (forall p, x: nat | p in tab && x < ENTRIES && !Covers(r, p, x) :: mem'[tab[p]][x] == mem[tab[p]][x])
  }

  ghost predicate Extends(tab: Tables, tab': Tables) {
    forall p | p in tab :: p in tab' && tab'[p] == tab[p]
  }

  ghost predicate Grows(mem: Memory, mem': Memory, tab: Tables, tab': Tables, r: Region) {
    Extends(tab, tab') && Confined(mem, mem', tab, tab', r) && NoNewLargePage(mem, mem', tab, tab')
  }

  lemma GrowsTransitive(a: Memory, b: Memory, c: Memory, s: Tables, t: Tables, u: Tables, r: Region)
    requires Grows(a, b, s, t, r) && Grows(b, c, t, u, r)
    ensures Grows(a, c, s, u, r)
  {
    hide LargePage, Covers;
    forall f | 0 <= f < |a| && f !in u.Values
      ensures c[f] == a[f]
    {
      assert forall p | p in t :: u[p] == t[p];
    }
  }

  /** What a write to a table pointer may do to entry `y` of the table at `q`: nothing; keep the child that hangs there;
      or hang a zeroed table into an empty entry. */
  ghost predicate Kept(mem: Memory, mem': Memory, tab: Tables, tab': Tables, q: Pos, y: nat)
    requires q in tab && tab[q] < |mem| == |mem'| && y < ENTRIES && Bounded(tab', |mem'|)
  {
    || mem'[tab[q]][y] == mem[tab[q]][y]
    || (Depth(q) < 3 && Sub(q, y) in tab)
    || (Depth(q) < 3 && !Present(mem[tab[q]][y]) && Sub(q, y) in tab' && mem'[tab'[Sub(q, y)]] == ZeroTable())
  }

  /** Such writes change no translation. */
  lemma {:induction false} KeptWalk(mem: Memory, mem': Memory, root: nat, tab: Tables, tab': Tables, r: Region,
                                    v: nat, d: nat)
    requires Tree(mem, root, tab, r) && Tree(mem', root, tab', r) && Extends(tab, tab') && |mem'| == |mem|
    requires forall q, y: nat | q in tab && y < ENTRIES && Covers(r, q, y) :: Kept(mem, mem', tab, tab', q, y)
    requires InRegion(r, v) && d <= 3 && PathTo(v, d) in tab
    ensures HwFrom(mem', tab[PathTo(v, d)], d, v) == HwFrom(mem, tab[PathTo(v, d)], d, v)
    decreases 3 - d
  {
    hide Present, Huge, Index, Injective, Frame, HwFrame, Linking, Shape, Covers;
    var p := PathTo(v, d);
    HwStep(mem, root, tab, r, v, d);
    HwStep(mem', root, tab', r, v, d);
    if d < 3 {
      PathCovered(r, v, d);
      assert PathTo(v, d + 1) == Sub(p, Index(d, v));
      assert Kept(mem, mem', tab, tab', p, Index(d, v));
      if PathTo(v, d + 1) in tab {
        KeptWalk(mem, mem', root, tab, tab', r, v, d + 1);
      } else if mem'[tab[p]][Index(d, v)] != mem[tab[p]][Index(d, v)] {
        EmptyTable(mem', tab'[PathTo(v, d + 1)], d + 1, v);
      }
    } else {
      LastCovered(r, v);
      assert Kept(mem, mem', tab, tab', p, Index(d, v));
    }
  }

  lemma EmptyTable(mem: Memory, f: nat, d: nat, v: nat)
    requires f < |mem| && mem[f] == ZeroTable() && d <= 3
    ensures HwFrom(mem, f, d, v) == None
  {
  }

  lemma LastCovered(r: Region, v: nat)
    ensures Covers(r, PathTo(v, 3), Index(3, v))
  {
    assert PathTo(v, 2) == Sub(PathTo(v, 1), Index(1, v));
    assert PathTo(v, 3) == Sub(PathTo(v, 2), Index(2, v));
  }

  lemma KeptTranslation(mem: Memory, mem': Memory, root: nat, tab: Tables, tab': Tables, r: Region)
    requires Tree(mem, root, tab, r) && Tree(mem', root, tab', r) && Extends(tab, tab') && |mem'| == |mem|
    requires forall q, y: nat | q in tab && y < ENTRIES && Covers(r, q, y) :: Kept(mem, mem', tab, tab', q, y)
    ensures SameTranslation(mem, mem', root, r)
  {
    forall v: nat | InRegion(r, v)
      ensures Translate(mem', root, v) == Translate(mem, root, v)
    {
      KeptWalk(mem, mem', root, tab, tab', r, v, 0);
    }
  }

  /** Writes outside the tree change neither the tree nor its translations. */
  lemma FrameTree(mem: Memory, mem': Memory, root: nat, tab: Tables, r: Region)
    requires Tree(mem, root, tab, r) && |mem'| == |mem|
    requires forall p | p in tab :: mem'[tab[p]] == mem[tab[p]]
    ensures Tree(mem', root, tab, r) && SameTranslation(mem, mem', root, r)
  {
    hide Shape, Injective, IsTable, Frame, Covers;
    forall p, x: nat | p in tab && Depth(p) < 3 && x < ENTRIES && Covers(r, p, x)
      ensures Linked(mem', tab, p, x)
    {
      assert Linked(mem, tab, p, x);
    }
    KeptTranslation(mem, mem', root, tab, tab, r);
  }

  /** A write of one entry leaves the entries of all other places alone, because no frame is used twice. */
  lemma StoreElsewhere(mem: Memory, tab: Tables, p: Pos, x: nat, w: Word, q: Pos, y: nat)
    requires Bounded(tab, |mem|) && Injective(tab) && p in tab && q in tab && x < ENTRIES && y < ENTRIES
    ensures Store(mem, tab[p], x, w)[tab[q]][y] == if p == q && x == y then w else mem[tab[q]][y]
  {
  }

  lemma StoreConfined(mem: Memory, tab: Tables, r: Region, p: Pos, x: nat, w: Word)
    requires Bounded(tab, |mem|) && Injective(tab) && p in tab && x < ENTRIES && Covers(r, p, x)
    ensures Confined(mem, Store(mem, tab[p], x, w), tab, tab, r)
  {
    hide Covers;
    forall q, y: nat | q in tab && y < ENTRIES {
      StoreElsewhere(mem, tab, p, x, w, q, y);
    }
  }

  /** Setting the user bit of a pointer. */
  lemma SetUserStep(mem: Memory, root: nat, tab: Tables, r: Region, p: Pos, x: nat, w: Word)
    requires Tree(mem, root, tab, r) && p in tab && Depth(p) < 3 && x < ENTRIES && Covers(r, p, x)
    requires Sub(p, x) in tab && w == mem[tab[p]][x] + 4 && !User(mem[tab[p]][x])
    ensures var mem' := Store(mem, tab[p], x, w);
            && Tree(mem', root, tab, r) && SameTranslation(mem, mem', root, r) && Grows(mem, mem', tab, tab, r)
  {
    hide Shape, Injective, Covers, SameTranslation, Confined, Present, Huge, Frame, User;
    var mem' := Store(mem, tab[p], x, w);
    assert Linked(mem, tab, p, x);
    UserBit(mem[tab[p]][x], w);
    forall q, y: nat | q in tab && y < ENTRIES
      ensures mem'[tab[q]][y] == if p == q && x == y then w else mem[tab[q]][y]
    {
      StoreElsewhere(mem, tab, p, x, w, q, y);
    }
    forall q, y: nat | q in tab && Depth(q) < 3 && y < ENTRIES && Covers(r, q, y)
      ensures Linked(mem', tab, q, y)
    {
      assert Linked(mem, tab, q, y);
    }
    StoreConfined(mem, tab, r, p, x, w);
    KeptTranslation(mem, mem', root, tab, tab, r);
  }

  lemma LowBits(h: nat, r: nat)
    requires r < 8
    ensures (h * 8 + r) / 4 % 2 == 1 <==> r >= 4
  {
    var k := if r >= 4 then 1 else 0;
    ModUnique(h * 8 + r, 4, 2 * h + k, r - 4 * k);
    ModUnique(2 * h + k, 2, h, k);
  }

  lemma UserBit(old_: Word, w: Word)
    requires w == old_ + 4 && !User(old_)
    ensures (Present(w) <==> Present(old_)) && (Huge(w) <==> Huge(old_)) && Frame(w) == Frame(old_)
  {
    var h, r := old_ / 8, old_ % 8;
    LowBits(h, r);
    assert old_ == h * 8 + r && r < 4;
    ModUnique(w, 8, h, r + 4);
    Eighths(old_);
    Eighths(w);
    ModUnique(w, 2, old_ / 2 + 2, old_ % 2);
  }

  lemma Eighths(w: nat)
    ensures w / 128 == w / 8 / 16 && w / PAGE_SIZE == w / 8 / 512
  {
    DivDiv(w, 8, 16);
    DivDiv(w, 8, 512);
  }

  /** Hanging a zeroed table into an empty entry. */
  lemma LinkStep(mem: Memory, root: nat, tab: Tables, r: Region, p: Pos, x: nat, f: nat, w: Word)
    requires Tree(mem, root, tab, r) && p in tab && Depth(p) < 3 && x < ENTRIES && Covers(r, p, x)
    requires !Present(mem[tab[p]][x])
    requires f !in tab.Values && f < |mem| && f < Pmm.MAX_PAGES
    requires Present(w) && !Huge(w) && Frame(w) == f
    ensures var mem' := Store(mem[f := ZeroTable()], tab[p], x, w);
            var tab' := tab[Sub(p, x) := f];
            && Tree(mem', root, tab', r) && SameTranslation(mem, mem', root, r) && Grows(mem, mem', tab, tab', r)
  {
    hide Shape, Injective, Covers, SameTranslation, Confined, Huge, Present, Frame, Linking, NoNewLargePage, Kept;
    var mem' := Store(mem[f := ZeroTable()], tab[p], x, w);
    var tab' := tab[Sub(p, x) := f];
    assert Linked(mem, tab, p, x) by { LinkedAt(mem, tab, r, p, x); }
    assert Sub(p, x) !in tab;
    forall q, y: nat | q in tab && y < ENTRIES
      ensures mem'[tab[q]][y] == if p == q && x == y then w else mem[tab[q]][y]
    {
      StoreElsewhere(mem[f := ZeroTable()], tab, p, x, w, q, y);
    }
    assert mem'[f] == ZeroTable();
    LinkShape(tab, root, r, p, x, f);
    LinkLinking(mem, mem', root, tab, r, p, x, f, w);
    LinkConfined(mem, mem', tab, r, p, x, f, w);
    LinkKept(mem, mem', tab, tab', p, x, f, w);
    KeptTranslation(mem, mem', root, tab, tab', r);
  }

  lemma LinkKept(mem: Memory, mem': Memory, tab: Tables, tab': Tables, p: Pos, x: nat, f: nat, w: Word)
    requires tab' == tab[Sub(p, x) := f] && Bounded(tab, |mem|) && Bounded(tab', |mem|) && p in tab && x < ENTRIES
    requires Depth(p) < 3
    requires !Present(mem[tab[p]][x]) && f < |mem| == |mem'| && mem'[f] == ZeroTable()
    requires forall q, y: nat | q in tab && y < ENTRIES ::
               mem'[tab[q]][y] == if p == q && x == y then w else mem[tab[q]][y]
    ensures forall q, y: nat | q in tab && y < ENTRIES :: Kept(mem, mem', tab, tab', q, y)
  {
  }

  lemma LinkedAt(mem: Memory, tab: Tables, r: Region, p: Pos, x: nat)
    requires Bounded(tab, |mem|) && Linking(mem, tab, r) && p in tab && Depth(p) < 3 && x < ENTRIES && Covers(r, p, x)
    ensures Linked(mem, tab, p, x)
  {
  }

  lemma LinkShape(tab: Tables, root: nat, r: Region, p: Pos, x: nat, f: nat)
    requires Shape(tab, root, r) && Injective(tab) && p in tab && Depth(p) < 3 && x < ENTRIES && Covers(r, p, x)
    requires f !in tab.Values
    ensures var tab' := tab[Sub(p, x) := f]; Shape(tab', root, r) && Injective(tab')
  {
    assert forall q | q in tab :: tab[q] in tab.Values;
  }

  lemma LinkLinking(mem: Memory, mem': Memory, root: nat, tab: Tables, r: Region, p: Pos, x: nat, f: nat, w: Word)
    requires Bounded(tab, |mem|) && Linking(mem, tab, r) && p in tab && Depth(p) < 3 && x < ENTRIES && Sub(p, x) !in tab
    requires Shape(tab, root, r)
    requires f < |mem| == |mem'| && f < Pmm.MAX_PAGES && mem'[f] == ZeroTable() && IsTable(Depth(p), w) && Frame(w) == f
    requires forall q, y: nat | q in tab && y < ENTRIES ::
               mem'[tab[q]][y] == if p == q && x == y then w else mem[tab[q]][y]
    ensures Bounded(tab[Sub(p, x) := f], |mem'|) && Linking(mem', tab[Sub(p, x) := f], r)
  {
    hide Frame, Huge, Covers;
    var tab' := tab[Sub(p, x) := f];
    forall q, y: nat | q in tab' && Depth(q) < 3 && y < ENTRIES && Covers(r, q, y)
      ensures Linked(mem', tab', q, y)
    {
      if q in tab {
        assert Linked(mem, tab, q, y);
      } else {
        assert mem'[f][y] == 0;
        assert Sub(q, y) !in tab;
      }
    }
  }

  lemma LinkConfined(mem: Memory, mem': Memory, tab: Tables, r: Region, p: Pos, x: nat, f: nat, w: Word)
    requires Bounded(tab, |mem|) && p in tab && x < ENTRIES && Covers(r, p, x) && Sub(p, x) !in tab && !Huge(w)
    requires f < |mem| && mem' == Store(mem[f := ZeroTable()], tab[p], x, w) && mem'[f] == ZeroTable()
    requires forall q, y: nat | q in tab && y < ENTRIES ::
               mem'[tab[q]][y] == if p == q && x == y then w else mem[tab[q]][y]
    ensures var tab' := tab[Sub(p, x) := f];
            Extends(tab, tab') && Confined(mem, mem', tab, tab', r) && NoNewLargePage(mem, mem', tab, tab')
  {
    hide Covers, Huge;
    var tab' := tab[Sub(p, x) := f];
    assert tab'[p] == tab[p] && tab'[Sub(p, x)] == f;
    forall q, y: nat | q in tab' && y < ENTRIES && Depth(q) < 3 && LargePage(mem'[tab'[q]][y])
      ensures q in tab && LargePage(mem[tab[q]][y])
    {
      assert !LargePage(ZeroTable()[y]);
    }
  }

  /** The processor's reading of a page-table entry. */
  function LeafTranslation(w: Word, v: nat): Option<nat> {
    if Present(w) then Some(HwFrame(w) * PAGE_SIZE + v % PAGE_SIZE) else None
  }

  /** Writing an entry of a page table changes the translation of that one page. */
  lemma LeafStep(mem: Memory, root: nat, tab: Tables, r: Region, u: nat, w: Word)
    requires Tree(mem, root, tab, r) && InRegion(r, u) && PathTo(u, 3) in tab
    ensures var mem' := Store(mem, tab[PathTo(u, 3)], Index(3, u), w);
            && Tree(mem', root, tab, r) && Grows(mem, mem', tab, tab, r)
            && forall v: nat | InRegion(r, v) ::
                 Translate(mem', root, v) == if SamePage(u, v) then LeafTranslation(w, v) else Translate(mem, root, v)
  {
    hide Injective, Covers, Confined, Huge, Present, Frame, Index, SamePage;
    var p := PathTo(u, 3);
    var mem' := Store(mem, tab[p], Index(3, u), w);
    LastCovered(r, u);
    StoreConfined(mem, tab, r, p, Index(3, u), w);
    forall q, y: nat | q in tab && y < ENTRIES
      ensures mem'[tab[q]][y] == if p == q && Index(3, u) == y then w else mem[tab[q]][y]
    {
      StoreElsewhere(mem, tab, p, Index(3, u), w, q, y);
    }
    forall q, y: nat | q in tab && Depth(q) < 3 && y < ENTRIES && Covers(r, q, y)
      ensures Linked(mem', tab, q, y)
    {
      assert Linked(mem, tab, q, y);
    }
    forall v: nat | InRegion(r, v)
      ensures Translate(mem', root, v) == if SamePage(u, v) then LeafTranslation(w, v) else Translate(mem, root, v)
    {
      LeafWalk(mem, mem', root, tab, r, u, w, v, 0);
      PathsOfPages(u, v);
    }
  }

  lemma PathsOfPages(u: nat, v: nat)
    ensures SamePage(u, v) <==> PathTo(u, 3) == PathTo(v, 3) && Index(3, u) == Index(3, v)
  {
    hide Index, SamePage;
    SamePageIndices(u, v);
    PathIndices(u);
    PathIndices(v);
  }

  lemma PathIndices(v: nat)
    ensures PathTo(v, 3) == Sub(Sub(Sub(Root, Index(0, v)), Index(1, v)), Index(2, v))
  {
    hide Index;
    assert PathTo(v, 0) == Root;
    assert PathTo(v, 1) == Sub(Root, Index(0, v));
    assert PathTo(v, 2) == Sub(PathTo(v, 1), Index(1, v));
  }

  lemma {:induction false} LeafWalk(mem: Memory, mem': Memory, root: nat, tab: Tables, r: Region, u: nat, w: Word,
                                    v: nat, d: nat)
    requires Tree(mem, root, tab, r) && Tree(mem', root, tab, r) && PathTo(u, 3) in tab
    requires forall q, y: nat | q in tab && y < ENTRIES ::
               mem'[tab[q]][y] == if PathTo(u, 3) == q && Index(3, u) == y then w else mem[tab[q]][y]
    requires InRegion(r, v) && d <= 3 && PathTo(v, d) in tab
    ensures HwFrom(mem', tab[PathTo(v, d)], d, v) ==
            if PathTo(u, 3) == PathTo(v, 3) && Index(3, u) == Index(3, v) then LeafTranslation(w, v)
            else HwFrom(mem, tab[PathTo(v, d)], d, v)
    decreases 3 - d
  {
    hide Present, Huge, Index, Injective, Frame, HwFrame, Linking, Shape;
    HwStep(mem, root, tab, r, v, d);
    HwStep(mem', root, tab, r, v, d);
    if d < 3 {
      if PathTo(v, d + 1) in tab {
        LeafWalk(mem, mem', root, tab, r, u, w, v, d + 1);
      } else {
        NoDeeperTable(tab, root, r, v, d + 1);
        assert PathTo(v, d) != PathTo(u, 3);
      }
    }
  }

  /** A tree that lacks the table at depth `d` of a path lacks all deeper ones. */
  lemma {:induction false} NoDeeperTable(tab: Tables, root: nat, r: Region, v: nat, d: nat)
    requires Shape(tab, root, r) && d <= 3 && PathTo(v, d) !in tab
    ensures PathTo(v, 3) !in tab
    decreases 3 - d
  {
    if d < 3 {
      assert PathTo(v, d + 1).parent == PathTo(v, d);
      NoDeeperTable(tab, root, r, v, d + 1);
    }
  }
}
