/** The kernel heap (kheap.c): a first-fit allocator whose list nodes live inside the arena that it manages. */
module Kheap {
  import opened Words
  import opened Bytes
  import opened HeapBlocks

  // ---------- list nodes in the arena ----------

  /** A node as the bytes of the arena hold it: size and next as 64-bit little-endian words, then the used byte. */
  datatype Header = Header(size: nat, next: nat, used: bool)

  ghost predicate InArena(m: seq<Byte>, lo: nat, hi: nat) {
    KHEAP_BASE <= lo <= hi <= KHEAP_BASE + |m|
  }

  /** The bytes at the addresses `lo .. hi`. */
  function Range(m: seq<Byte>, lo: nat, hi: nat): seq<Byte>
    requires InArena(m, lo, hi)
  {
    m[lo - KHEAP_BASE..hi - KHEAP_BASE]
  }

  function HeaderAt(m: seq<Byte>, addr: nat): Header
    requires InArena(m, addr, addr + HEADER)
  {
    Header(Decode(Range(m, addr, addr + 8)), Decode(Range(m, addr + 8, addr + 16)),
           Range(m, addr + 16, addr + 17)[0] != 0)
  }

  /** The pointer to the next node: the block that starts where this one ends, or null at the end of the arena. */
  function NextOf(b: Block): nat {
    if b.End() == KHEAP_BASE + ARENA_SIZE then 0 else b.End()
  }

  ghost predicate NodeOk(m: seq<Byte>, b: Block) {
    InArena(m, b.addr, b.addr + HEADER) && HeaderAt(m, b.addr) == Header(b.size, NextOf(b), b.used)
  }

  /** The arena holds exactly this block list. */
  ghost predicate Holds(m: seq<Byte>, bs: seq<Block>) {
    |m| == ARENA_SIZE && Tiled(bs) && forall b | b in bs :: NodeOk(m, b)
  }

  /** Memory outside `lo .. hi` is as before. */
  ghost predicate Within(m: seq<Byte>, m': seq<Byte>, lo: nat, hi: nat) {
    && |m'| == |m| && InArena(m, lo, hi)
    && m'[..lo - KHEAP_BASE] == m[..lo - KHEAP_BASE]
    && m'[hi - KHEAP_BASE..] == m[hi - KHEAP_BASE..]
  }

  lemma WithinWider(m: seq<Byte>, m': seq<Byte>, lo: nat, hi: nat, lo': nat, hi': nat)
    requires Within(m, m', lo, hi) && lo' <= lo && hi <= hi' && InArena(m, lo', hi')
    ensures Within(m, m', lo', hi')
  {
    assert m'[..lo' - KHEAP_BASE] == m'[..lo - KHEAP_BASE][..lo' - KHEAP_BASE];
    assert m[..lo' - KHEAP_BASE] == m[..lo - KHEAP_BASE][..lo' - KHEAP_BASE];
    assert m'[hi' - KHEAP_BASE..] == m'[hi - KHEAP_BASE..][hi' - hi..];
    assert m[hi' - KHEAP_BASE..] == m[hi - KHEAP_BASE..][hi' - hi..];
  }

  lemma RangeElsewhere(m: seq<Byte>, m': seq<Byte>, lo: nat, hi: nat, a: nat, b: nat)
    requires Within(m, m', lo, hi) && InArena(m, a, b) && (b <= lo || hi <= a)
    ensures Range(m', a, b) == Range(m, a, b)
  {
    var x, y, l, h := a - KHEAP_BASE, b - KHEAP_BASE, lo - KHEAP_BASE, hi - KHEAP_BASE;
    if b <= lo {
      PrefixSlice(m, l, x, y);
      PrefixSlice(m', l, x, y);
    } else {
      SuffixSlice(m, h, x, y);
      SuffixSlice(m', h, x, y);
    }
  }

  lemma PrefixSlice(m: seq<Byte>, l: nat, x: nat, y: nat)
    requires x <= y <= l <= |m|
    ensures m[..l][x..y] == m[x..y]
  {
  }

  lemma SuffixSlice(m: seq<Byte>, h: nat, x: nat, y: nat)
    requires h <= x <= y <= |m|
    ensures m[h..][x - h..y - h] == m[x..y]
  {
  }

  lemma WithinSize(m: seq<Byte>, m': seq<Byte>, lo: nat, hi: nat)
    requires Within(m, m', lo, hi)
    ensures |m'| == |m| && InArena(m, lo, hi)
  {
  }

  lemma HeaderElsewhere(m: seq<Byte>, m': seq<Byte>, lo: nat, hi: nat, addr: nat)
    requires Within(m, m', lo, hi) && InArena(m, addr, addr + HEADER) && (addr + HEADER <= lo || hi <= addr)
    ensures HeaderAt(m', addr) == HeaderAt(m, addr)
  {
    hide Within, Range;
    WithinSize(m, m', lo, hi);
    RangeElsewhere(m, m', lo, hi, addr, addr + 8);
    RangeElsewhere(m, m', lo, hi, addr + 8, addr + 16);
    RangeElsewhere(m, m', lo, hi, addr + 16, addr + 17);
  }

  /** Writing one field of a node. */
  lemma PutSize(m: seq<Byte>, addr: nat, v: Word)
    requires InArena(m, addr, addr + HEADER)
    ensures var m' := Put(m, addr - KHEAP_BASE, Encode(v, 8));
            Within(m, m', addr, addr + HEADER) && HeaderAt(m', addr) == HeaderAt(m, addr).(size := v)
  {
    var o := addr - KHEAP_BASE;
    WordFits(v);
    DecodeEncode(v, 8);
    PutSlices(m, o, Encode(v, 8), o + 8, o + 16);
    PutSlices(m, o, Encode(v, 8), o + 16, o + 17);
    PutWithin(m, addr, addr, Encode(v, 8));
  }

  lemma PutNext(m: seq<Byte>, addr: nat, v: Word)
    requires InArena(m, addr, addr + HEADER)
    ensures var m' := Put(m, addr + 8 - KHEAP_BASE, Encode(v, 8));
            Within(m, m', addr, addr + HEADER) && HeaderAt(m', addr) == HeaderAt(m, addr).(next := v)
  {
    var o := addr - KHEAP_BASE;
    WordFits(v);
    DecodeEncode(v, 8);
    PutSlices(m, o + 8, Encode(v, 8), o, o + 8);
    PutSlices(m, o + 8, Encode(v, 8), o + 16, o + 17);
    PutWithin(m, addr, addr + 8, Encode(v, 8));
  }

  lemma PutUsed(m: seq<Byte>, addr: nat, used: bool)
    requires InArena(m, addr, addr + HEADER)
    ensures var m' := Put(m, addr + 16 - KHEAP_BASE, [if used then 1 else 0]);
            Within(m, m', addr, addr + HEADER) && HeaderAt(m', addr) == HeaderAt(m, addr).(used := used)
  {
    var o := addr - KHEAP_BASE;
    var data := [if used then 1 else 0];
    PutSlices(m, o + 16, data, o, o + 8);
    PutSlices(m, o + 16, data, o + 8, o + 16);
    PutWithin(m, addr, addr + 16, data);
  }

  lemma PutWithin(m: seq<Byte>, addr: nat, at: nat, data: seq<Byte>)
    requires InArena(m, addr, addr + HEADER) && addr <= at && at + |data| <= addr + HEADER
    ensures Within(m, Put(m, at - KHEAP_BASE, data), addr, addr + HEADER)
  {
    var o, n := at - KHEAP_BASE, |m|;
    var hi := addr + HEADER - KHEAP_BASE;
    PutSlices(m, o, data, 0, addr - KHEAP_BASE);
    PutSlices(m, o, data, hi, n);
    var m' := Put(m, o, data);
    assert m'[hi..] == m'[hi..n] && m[hi..] == m[hi..n];
    assert m'[..addr - KHEAP_BASE] == m'[0..addr - KHEAP_BASE] && m[..addr - KHEAP_BASE] == m[0..addr - KHEAP_BASE];
  }

  // ---------- replacing a stretch of blocks ----------

  /** If memory changed only inside the room of `old_`, and the nodes of `piece` fill that room, the list is spliced. */
  lemma HoldsSpliced(m: seq<Byte>, m': seq<Byte>, before: seq<Block>, old_: seq<Block>, after: seq<Block>,
                     piece: seq<Block>, lo: nat, hi: nat)
    requires Holds(m, before + old_ + after) && Within(m, m', lo, hi)
    requires Tiles(before, KHEAP_BASE, lo) && Tiles(after, hi, KHEAP_BASE + ARENA_SIZE) && Tiles(piece, lo, hi)
    requires forall b | b in piece :: NodeOk(m', b)
    ensures Holds(m', before + piece + after)
    ensures forall b | b in before || b in after ::
              InArena(m, b.addr, b.End()) && Range(m', b.addr, b.End()) == Range(m, b.addr, b.End())
  {
    hide Tiles, Within, HeaderAt, Range;
    var end := KHEAP_BASE + ARENA_SIZE;
    WithinSize(m, m', lo, hi);
    JoinTiles(before, piece, KHEAP_BASE, lo, hi);
    JoinTiles(before + piece, after, KHEAP_BASE, hi, end);
    TilesBounds(before, KHEAP_BASE, lo);
    TilesBounds(after, hi, end);
    forall b | b in before || b in after
      ensures NodeOk(m', b)
      ensures InArena(m, b.addr, b.End()) && Range(m', b.addr, b.End()) == Range(m, b.addr, b.End())
    {
      assert b in before + old_ + after;
      HeaderElsewhere(m, m', lo, hi, b.addr);
      RangeElsewhere(m, m', lo, hi, b.addr, b.End());
    }
  }

  lemma JoinTiles(a: seq<Block>, b: seq<Block>, lo: nat, mid: nat, hi: nat)
    requires Tiles(a, lo, mid) && Tiles(b, mid, hi)
    ensures Tiles(a + b, lo, hi)
  {
    TilesBounds(a, lo, mid);
    TilesConcat(a, b, lo, hi);
  }

  /** Whole blocks, node and payload, that an operation did not touch. */
  ghost predicate Untouched(m: seq<Byte>, m': seq<Byte>, b: Block) {
    |m'| == |m| && InArena(m, b.addr, b.End()) && Range(m', b.addr, b.End()) == Range(m, b.addr, b.End())
  }

  ghost predicate UsedUntouched(m: seq<Byte>, m': seq<Byte>, bs: seq<Block>) {
    forall b | b in bs && b.used :: Untouched(m, m', b)
  }

  /** The address of node `i`, or null past the end. */
  function AddrOf(bs: seq<Block>, i: nat): nat
    requires i <= |bs|
  {
    if i < |bs| then bs[i].addr else 0
  }

  /** A step along the list. */
  lemma Walk(m: seq<Byte>, bs: seq<Block>, i: nat)
    requires Holds(m, bs) && i < |bs|
    ensures InArena(m, bs[i].addr, bs[i].addr + HEADER) && bs[i].addr != 0 && bs[i].End() <= KHEAP_BASE + ARENA_SIZE
    ensures bs[i].addr + HEADER <= bs[i].End()
    ensures HeaderAt(m, bs[i].addr) == Header(bs[i].size, AddrOf(bs, i + 1), bs[i].used)
  {
    hide HeaderAt, Tiles;
    BlockBounds(bs, KHEAP_BASE, KHEAP_BASE + ARENA_SIZE, i);
    assert bs[i] in bs && NodeOk(m, bs[i]);
    if i + 1 < |bs| {
      BlockBounds(bs, KHEAP_BASE, KHEAP_BASE + ARENA_SIZE, i + 1);
    }
  }

  lemma NodeIn(m: seq<Byte>, bs: seq<Block>, i: nat)
    requires Holds(m, bs) && i < |bs|
    ensures NodeOk(m, bs[i])
  {
    assert bs[i] in bs;
  }

  /** Memory after carving block `i`. */
  lemma HoldsCarved(m: seq<Byte>, m': seq<Byte>, bs: seq<Block>, i: nat, need: nat)
    requires Holds(m, bs) && i < |bs| && Fits(bs[i], need) && need % ALIGN == 0
    requires Within(m, m', bs[i].addr, bs[i].End())
    requires forall b | b in Carve(bs[i], need) :: NodeOk(m', b)
    ensures Holds(m', Splice(bs, i, Carve(bs[i], need))) && UsedUntouched(m, m', bs)
  {
    hide Tiles, Within, NodeOk, Carve;
    TilesAround(bs, KHEAP_BASE, KHEAP_BASE + ARENA_SIZE, i);
    CarveTiles(bs[i], need);
    assert bs == bs[..i] + [bs[i]] + bs[i + 1..];
    WithinSize(m, m', bs[i].addr, bs[i].End());
    HoldsSpliced(m, m', bs[..i], [bs[i]], bs[i + 1..], Carve(bs[i], need), bs[i].addr, bs[i].End());
    forall b | b in bs && b.used
      ensures b in bs[..i] || b in bs[i + 1..]
    {
      assert b in bs[..i] || b == bs[i] || b in bs[i + 1..];
    }
  }

  /** Memory after clearing the used byte of block `i`. */
  lemma HoldsReleased(m: seq<Byte>, m': seq<Byte>, bs: seq<Block>, i: nat)
    requires Holds(m, bs) && i < |bs| && Within(m, m', bs[i].addr, bs[i].addr + HEADER)
    requires HeaderAt(m', bs[i].addr) == HeaderAt(m, bs[i].addr).(used := false)
    ensures Holds(m', bs[i := bs[i].(used := false)]) && UsedUntouched(m, m', bs[..i] + bs[i + 1..])
  {
    hide Tiles, HeaderAt;
    var b := bs[i].(used := false);
    TilesAround(bs, KHEAP_BASE, KHEAP_BASE + ARENA_SIZE, i);
    Walk(m, bs, i);
    assert bs[i] in bs && NodeOk(m, bs[i]);
    assert bs == bs[..i] + [bs[i]] + bs[i + 1..];
    assert bs[i := b] == bs[..i] + [b] + bs[i + 1..];
    WithinWider(m, m', bs[i].addr, bs[i].addr + HEADER, bs[i].addr, bs[i].End());
    OneTile(b);
    HoldsSpliced(m, m', bs[..i], [bs[i]], bs[i + 1..], [b], b.addr, b.End());
  }

  lemma OneTile(b: Block)
    requires b.size >= HEADER && b.size % ALIGN == 0
    ensures Tiles([b], b.addr, b.End())
  {
    assert [b][1..] == [];
  }

  /** Memory after one merge: the first node takes over the size and the successor of the second. */
  lemma HoldsMerged(m: seq<Byte>, m': seq<Byte>, bs: seq<Block>, k: nat)
    requires Holds(m, bs) && k + 1 < |bs| && !bs[k].used && !bs[k + 1].used
    requires Within(m, m', bs[k].addr, bs[k].addr + HEADER)
    requires HeaderAt(m', bs[k].addr) == Header(bs[k].size + bs[k + 1].size, AddrOf(bs, k + 2), false)
    ensures Holds(m', bs[..k] + [Merge(bs[k], bs[k + 1])] + bs[k + 2..]) && UsedUntouched(m, m', bs)
  {
    hide Tiles, HeaderAt, NodeOk, Within;
    var b := Merge(bs[k], bs[k + 1]);
    MergeRoom(m, bs, k);
    WithinWider(m, m', bs[k].addr, bs[k].addr + HEADER, b.addr, b.End());
    MergedNode(m, m', bs, k);
    OneTile(b);
    assert bs == bs[..k] + [bs[k], bs[k + 1]] + bs[k + 2..];
    WithinSize(m, m', b.addr, b.End());
    HoldsSpliced(m, m', bs[..k], [bs[k], bs[k + 1]], bs[k + 2..], [b], b.addr, b.End());
    forall c | c in bs && c.used
      ensures c in bs[..k] || c in bs[k + 2..]
    {
      assert c in bs[..k] || c == bs[k] || c == bs[k + 1] || c in bs[k + 2..];
    }
  }

  lemma MergeRoom(m: seq<Byte>, bs: seq<Block>, k: nat)
    requires Holds(m, bs) && k + 1 < |bs|
    ensures var b := Merge(bs[k], bs[k + 1]);
            && Tiles(bs[..k], KHEAP_BASE, b.addr) && Tiles(bs[k + 2..], b.End(), KHEAP_BASE + ARENA_SIZE)
            && b.size >= HEADER && b.size % ALIGN == 0 && InArena(m, b.addr, b.End()) && b.End() == bs[k + 1].End()
  {
    hide Tiles, NodeOk;
    var lo, hi := KHEAP_BASE, KHEAP_BASE + ARENA_SIZE;
    TilesAround(bs, lo, hi, k);
    TilesAround(bs, lo, hi, k + 1);
    BlockBounds(bs, lo, hi, k);
    BlockBounds(bs, lo, hi, k + 1);
  }

  lemma MergedNode(m: seq<Byte>, m': seq<Byte>, bs: seq<Block>, k: nat)
    requires Holds(m, bs) && k + 1 < |bs|
    requires Within(m, m', bs[k].addr, bs[k].addr + HEADER)
    requires HeaderAt(m', bs[k].addr) == Header(bs[k].size + bs[k + 1].size, AddrOf(bs, k + 2), false)
    ensures NodeOk(m', Merge(bs[k], bs[k + 1]))
  {
    hide Tiles, HeaderAt, Within;
    WithinSize(m, m', bs[k].addr, bs[k].addr + HEADER);
    MergeRoom(m, bs, k);
    NodeIn(m, bs, k + 1);
    Walk(m, bs, k + 1);
  }

  lemma SameMemory(m: seq<Byte>, bs: seq<Block>)
    requires bs == [] || Holds(m, bs)
    ensures UsedUntouched(m, m, bs)
  {
    if bs != [] {
      TilesBounds(bs, KHEAP_BASE, KHEAP_BASE + ARENA_SIZE);
    }
  }

  lemma InitialHolds(m: seq<Byte>)
    requires |m| == ARENA_SIZE && HeaderAt(m, KHEAP_BASE) == Header(ARENA_SIZE, 0, false)
    ensures Holds(m, INITIAL) && UsedPayload(INITIAL) == 0
  {
    hide HeaderAt;
    var b := Block(KHEAP_BASE, ARENA_SIZE, false);
    assert INITIAL == [b];
    OneTile(b);
    UsedOne(b);
  }

  lemma FirstAddr(m: seq<Byte>, bs: seq<Block>)
    requires Holds(m, bs)
    ensures AddrOf(bs, 0) == KHEAP_BASE && |bs| > 0 && forall b | b in bs :: b.addr != 0
  {
    TilesBounds(bs, KHEAP_BASE, KHEAP_BASE + ARENA_SIZE);
  }

  lemma NonNullAt(m: seq<Byte>, bs: seq<Block>, i: nat)
    requires Holds(m, bs)
    ensures i < |bs| ==> bs[i].addr != 0
  {
    FirstAddr(m, bs);
  }

  lemma UntouchedTwice(m: seq<Byte>, m1: seq<Byte>, m2: seq<Byte>, bs: seq<Block>, bs1: seq<Block>)
    requires UsedUntouched(m, m1, bs) && UsedUntouched(m1, m2, bs1) && forall b: Block | b.used && b in bs :: b in bs1
    ensures UsedUntouched(m, m2, bs)
  {
    hide Range;
  }

  lemma FirstFitIs(bs: seq<Block>, need: nat, i: nat)
    requires i <= |bs| && (i < |bs| ==> Fits(bs[i], need)) && forall j | 0 <= j < i :: !Fits(bs[j], need)
    ensures FirstFit(bs, need) == i
    ensures i == |bs| ==> AllocBlocks(bs, need) == bs && AllocPtr(bs, need) == 0
  {
    var f := FirstFit(bs, need);
    assert f < |bs| ==> Fits(bs[f], need);
  }

  lemma CarveUsed(b: Block, need: nat)
    requires Fits(b, need)
    ensures UsedPayload(Carve(b, need)) == Carve(b, need)[0].Payload() && UsedPayload([b]) == 0
  {
    var c := Carve(b, need);
    UsedOne(b);
    UsedOne(c[0]);
    if |c| == 2 {
      UsedOne(c[1]);
      UsedConcat([c[0]], [c[1]]);
      assert c == [c[0]] + [c[1]];
    }
  }

  lemma CarvedInOne(m: seq<Byte>, m': seq<Byte>, b: Block, need: nat)
    requires |m| == ARENA_SIZE && NodeOk(m, b) && Fits(b, need) && b.size >= HEADER
    requires b.End() <= KHEAP_BASE + ARENA_SIZE
    requires b.Payload() - need < HEADER + ALIGN
    requires Within(m, m', b.addr, b.addr + HEADER) && HeaderAt(m', b.addr) == HeaderAt(m, b.addr).(used := true)
    ensures Within(m, m', b.addr, b.End()) && (forall c | c in Carve(b, need) :: NodeOk(m', c))
    ensures HeaderAt(m', b.addr).size == Carve(b, need)[0].size
  {
    hide HeaderAt;
    WithinWider(m, m', b.addr, b.addr + HEADER, b.addr, b.End());
  }

  lemma CarvedInTwo(m: seq<Byte>, m1: seq<Byte>, m2: seq<Byte>, b: Block, need: nat)
    requires |m| == ARENA_SIZE && NodeOk(m, b) && Fits(b, need) && b.size >= HEADER
    requires b.End() <= KHEAP_BASE + ARENA_SIZE
    requires b.Payload() - need >= HEADER + ALIGN
    requires var split := b.addr + HEADER + need;
             && Within(m, m1, split, split + HEADER)
             && HeaderAt(m1, split) == Header(b.Payload() - need, NextOf(b), false)
             && Within(m1, m2, b.addr, b.addr + HEADER) && HeaderAt(m2, b.addr) == Header(HEADER + need, split, true)
    ensures Within(m, m2, b.addr, b.End()) && forall c | c in Carve(b, need) :: NodeOk(m2, c)
  {
    hide HeaderAt;
    var split := b.addr + HEADER + need;
    WithinWider(m, m1, split, split + HEADER, b.addr, b.End());
    WithinWider(m1, m2, b.addr, b.addr + HEADER, b.addr, b.End());
    HeaderElsewhere(m1, m2, b.addr, b.addr + HEADER, split);
  }

  class Heap {
    const arena: array<Byte>
    var head: nat
    var usedBytes: nat
    ghost var blocks: seq<Block>

    /** The abstract value is `blocks`; before `Init` there is no list. */
    ghost predicate Valid()
      reads this, arena
    {
      && arena.Length == ARENA_SIZE
      && (head == 0 ==> blocks == [])
      && (head != 0 ==> head == KHEAP_BASE && Holds(arena[..], blocks))
      && usedBytes == UsedPayload(blocks)
    }

    constructor (arena: array<Byte>)
      requires arena.Length == ARENA_SIZE
      ensures Valid() && head == 0 && this.arena == arena
    {
      this.arena, head, usedBytes, blocks := arena, 0, 0, [];
    }

    // ---------- stores into a node ----------

    method StoreU64(addr: nat, v: Word)
      requires InArena(arena[..], addr, addr + 8)
      modifies arena
      ensures arena[..] == Put(old(arena[..]), addr - KHEAP_BASE, Encode(v, 8))
    {
      var o, data := addr - KHEAP_BASE, Encode(v, 8);
      for k := 0 to 8
        invariant forall j | 0 <= j < k :: arena[o + j] == data[j]
        invariant forall j | 0 <= j < arena.Length && !(o <= j < o + k) :: arena[j] == old(arena[j])
      {
        arena[o + k] := data[k];
      }
    }

    method SetSize(addr: nat, v: Word)
      requires InArena(arena[..], addr, addr + HEADER)
      modifies arena
      ensures Within(old(arena[..]), arena[..], addr, addr + HEADER)
      ensures HeaderAt(arena[..], addr) == old(HeaderAt(arena[..], addr)).(size := v)
    {
      PutSize(arena[..], addr, v);
      StoreU64(addr, v);
    }

    method SetNext(addr: nat, v: Word)
      requires InArena(arena[..], addr, addr + HEADER)
      modifies arena
      ensures Within(old(arena[..]), arena[..], addr, addr + HEADER)
      ensures HeaderAt(arena[..], addr) == old(HeaderAt(arena[..], addr)).(next := v)
    {
      PutNext(arena[..], addr, v);
      StoreU64(addr + 8, v);
    }

    method SetUsed(addr: nat, used: bool)
      requires InArena(arena[..], addr, addr + HEADER)
      modifies arena
      ensures Within(old(arena[..]), arena[..], addr, addr + HEADER)
      ensures HeaderAt(arena[..], addr) == old(HeaderAt(arena[..], addr)).(used := used)
    {
      PutUsed(arena[..], addr, used);
      arena[addr + 16 - KHEAP_BASE] := if used then 1 else 0;
      assert arena[..] == Put(old(arena[..]), addr + 16 - KHEAP_BASE, [if used then 1 else 0]);
    }

    method SetHeader(addr: nat, size: Word, next: Word, used: bool)
      requires InArena(arena[..], addr, addr + HEADER)
      modifies arena
      ensures Within(old(arena[..]), arena[..], addr, addr + HEADER)
      ensures HeaderAt(arena[..], addr) == Header(size, next, used)
    {
      hide HeaderAt;
      SetSize(addr, size);
      SetNext(addr, next);
      SetUsed(addr, used);
    }

    // ---------- the operations ----------

    method Init()
      requires Valid()
      modifies this, arena
      ensures Valid() && head != 0 && blocks == INITIAL
    {
      hide HeaderAt;
      SetHeader(KHEAP_BASE, ARENA_SIZE, 0, false);
      InitialHolds(arena[..]);
      head, usedBytes, blocks := KHEAP_BASE, 0, INITIAL;
    }

    /** First fit. The block list after the call, the pointer, and every block that was in use are accounted for. */
    method Alloc(size: Word) returns (ptr: nat)
      requires Valid()
      modifies this`usedBytes, this`blocks, arena
      ensures Valid() && head == old(head)
      ensures head == 0 ==> ptr == 0
      ensures head != 0 ==>
                && blocks == RequestBlocks(old(blocks), size)
                && ptr == (if size == 0 then 0 else AllocPtr(old(blocks), Need(size)))
      ensures ptr == 0 ==> arena[..] == old(arena[..]) && blocks == old(blocks)
      ensures UsedUntouched(old(arena[..]), arena[..], old(blocks))
      ensures forall b | b in old(blocks) && b.used :: b in blocks
    {
      hide HeaderAt, Holds, Within, AllocBlocks, Need, UsedPayload, Range;
      SameMemory(arena[..], blocks);
      if size == 0 || head == 0 {
        return 0;
      }
      var need := Need(size);
      NeedCovers(size);
      var block := head;
      ghost var i := 0;
      FirstAddr(arena[..], blocks);
      while block != 0
        invariant Valid() && head == old(head) && blocks == old(blocks) && arena[..] == old(arena[..])
        invariant i <= |blocks| && block == AddrOf(blocks, i)
        invariant forall j | 0 <= j < i :: !Fits(blocks[j], need)
        decreases |blocks| - i
      {
        Walk(arena[..], blocks, i);
        var h := HeaderAt(arena[..], block);
        if !h.used && PayloadSize(h.size) >= need {
          FirstFitIs(blocks, need, i);
          UsedSurvivesAlloc(blocks, need);
          TakeBlock(block, need, i);
          return block + HEADER;
        }
        block := h.next;
        i := i + 1;
      }
      NonNullAt(arena[..], blocks, i);
      FirstFitIs(blocks, need, i);
      return 0;
    }

    function PayloadSize(size: nat): nat {
      if size <= HEADER then 0 else size - HEADER
    }

    /** The body of the search loop once a block fits. */
    method TakeBlock(block: nat, need: nat, ghost i: nat)
      requires Valid() && head != 0 && i < |blocks| && block == blocks[i].addr && Fits(blocks[i], need)
      requires need % ALIGN == 0
      requires i == FirstFit(blocks, need)
      modifies this`usedBytes, this`blocks, arena
      ensures Valid() && blocks == AllocBlocks(old(blocks), need)
      ensures UsedUntouched(old(arena[..]), arena[..], old(blocks))
    {
      hide HeaderAt, Holds, Within, UsedPayload, Range, Tiles;
      ghost var b := blocks[i];
      Walk(arena[..], blocks, i);
      NodeIn(arena[..], blocks, i);
      WriteCarved(block, need, b);
      HoldsCarved(old(arena[..]), arena[..], blocks, i, need);
      UsedAround(blocks, i, Carve(b, need));
      CarveUsed(b, need);
      usedBytes := usedBytes + PayloadSize(HeaderAt(arena[..], block).size);
      blocks := Splice(blocks, i, Carve(b, need));
    }

    /** The writes that carve a block. */
    method WriteCarved(block: nat, need: nat, ghost b: Block)
      requires arena.Length == ARENA_SIZE && NodeOk(arena[..], b) && b.addr == block && Fits(b, need)
      requires b.size >= HEADER && b.End() <= KHEAP_BASE + ARENA_SIZE && NextOf(b) < U64
      modifies arena
      ensures Within(old(arena[..]), arena[..], b.addr, b.End())
      ensures forall c | c in Carve(b, need) :: NodeOk(arena[..], c)
      ensures InArena(arena[..], block, block + HEADER) && HeaderAt(arena[..], block).size == Carve(b, need)[0].size
    {
      hide HeaderAt, Within, Range;
      var h := HeaderAt(arena[..], block);
      var payload := PayloadSize(h.size);
      var remain := payload - need;
      if remain >= HEADER + ALIGN {
        var split := block + HEADER + need;
        SetHeader(split, remain, h.next, false);
        ghost var m1 := arena[..];
        SetHeader(block, HEADER + need, split, true);
        CarvedInTwo(old(arena[..]), m1, arena[..], b, need);
      } else {
        SetUsed(block, true);
        CarvedInOne(old(arena[..]), arena[..], b, need);
      }
    }

    /** `coalesce_free_blocks`: the loop's work is exactly `Coalesce`, and blocks in use are not touched. */
    method CoalesceFreeBlocks()
      requires arena.Length == ARENA_SIZE && head == KHEAP_BASE && Holds(arena[..], blocks)
      modifies this`blocks, arena
      ensures Holds(arena[..], blocks) && blocks == Coalesce(old(blocks))
      ensures UsedUntouched(old(arena[..]), arena[..], old(blocks))
    {
      hide HeaderAt, Holds, Within, Range, Tiles, Coalesce, UsedUntouched, NoFreeNeighbours;
      var block := head;
      ghost var k := 0;
      FirstAddr(arena[..], blocks);
      SameMemory(arena[..], blocks);
      OneBlock(blocks);
      while block != 0
        invariant head == old(head) && arena.Length == ARENA_SIZE && Holds(arena[..], blocks)
        invariant k < |blocks| && (if block == 0 then k + 1 == |blocks| else block == blocks[k].addr)
        invariant NoFreeNeighbours(blocks[..k + 1]) && Coalesce(blocks) == Coalesce(old(blocks))
        invariant UsedUntouched(old(arena[..]), arena[..], old(blocks))
        invariant forall b: Block | b.used :: b in blocks <==> b in old(blocks)
        decreases |blocks| - k, block
      {
        Walk(arena[..], blocks, k);
        var h := HeaderAt(arena[..], block);
        if h.next == 0 {
          LastNode(arena[..], blocks, k);
          block := 0;
        } else {
          NextNode(arena[..], blocks, k);
          Walk(arena[..], blocks, k + 1);
          var n := HeaderAt(arena[..], h.next);
          if !h.used && !n.used && h.next == block + h.size {
            ghost var m1, bs1 := arena[..], blocks;
            MergeNodes(block, h, n, k);
            UntouchedTwice(old(arena[..]), m1, arena[..], old(blocks), bs1);
          } else {
            ExtendPrefix(blocks, k);
            NonNullAt(arena[..], blocks, k + 1);
            block := h.next;
            k := k + 1;
          }
        }
      }
      assert blocks[..k + 1] == blocks;
      CoalesceNothing(blocks);
    }

    /** The merging branch of the loop. */
    method MergeNodes(block: nat, h: Header, n: Header, ghost k: nat)
      requires arena.Length == ARENA_SIZE && Holds(arena[..], blocks) && k + 1 < |blocks| && block == blocks[k].addr
      requires h == Header(blocks[k].size, AddrOf(blocks, k + 1), blocks[k].used) && !blocks[k].used
      requires n == Header(blocks[k + 1].size, AddrOf(blocks, k + 2), blocks[k + 1].used) && !blocks[k + 1].used
      requires NoFreeNeighbours(blocks[..k + 1])
      modifies this`blocks, arena
      ensures Holds(arena[..], blocks) && |blocks| == old(|blocks|) - 1 && k < |blocks| && blocks[k].addr == block
      ensures NoFreeNeighbours(blocks[..k + 1]) && Coalesce(blocks) == old(Coalesce(blocks))
      ensures UsedUntouched(old(arena[..]), arena[..], old(blocks))
      ensures forall b: Block | b.used :: b in blocks <==> b in old(blocks)
    {
      hide HeaderAt, Holds, Within, Range, Tiles, Coalesce, UsedUntouched, NoFreeNeighbours;
      MergeSizes(arena[..], blocks, k);
      Walk(arena[..], blocks, k);
      SetSize(block, h.size + n.size);
      ghost var m1 := arena[..];
      SetNext(block, n.next);
      WithinTwice(old(arena[..]), m1, arena[..], block, block + HEADER);
      HoldsMerged(old(arena[..]), arena[..], blocks, k);
      CoalesceMerge(blocks, k);
      MergedPrefix(blocks, k);
      ghost var merged := blocks[..k] + [Merge(blocks[k], blocks[k + 1])] + blocks[k + 2..];
      assert blocks == blocks[..k] + [blocks[k], blocks[k + 1]] + blocks[k + 2..];
      blocks := merged;
    }

    /** Unknown and free pointers change nothing; a pointer in use gives back exactly its block. */
    method Free(ptr: nat)
      requires Valid()
      modifies this`usedBytes, this`blocks, arena
      ensures Valid() && head == old(head)
      ensures blocks == if ptr == 0 then old(blocks) else FreeBlocks(old(blocks), ptr)
      ensures forall b | b in old(blocks) && b.used && b.Ptr() != ptr ::
                Untouched(old(arena[..]), arena[..], b) && b in blocks
    {
      hide HeaderAt, Holds, Within, Range, Tiles, Coalesce, UsedPayload, Untouched;
      SameMemory(arena[..], blocks);
      if ptr == 0 || head == 0 {
        return;
      }
      var block := head;
      ghost var i := 0;
      FirstAddr(arena[..], blocks);
      while block != 0
        invariant Valid() && head == old(head) && blocks == old(blocks) && arena[..] == old(arena[..])
        invariant i <= |blocks| && block == AddrOf(blocks, i)
        invariant forall j | 0 <= j < i :: blocks[j].Ptr() != ptr
        decreases |blocks| - i
      {
        Walk(arena[..], blocks, i);
        var h := HeaderAt(arena[..], block);
        if block + HEADER == ptr {
          FindPtrIs(blocks, ptr, i);
          if h.used {
            ReleaseBlock(block, i);
          }
          return;
        }
        block := h.next;
        i := i + 1;
      }
      NonNullAt(arena[..], blocks, i);
      FindPtrIs(blocks, ptr, i);
    }

    method ReleaseBlock(block: nat, ghost i: nat)
      requires Valid() && head != 0 && i < |blocks| && blocks[i].addr == block && blocks[i].used
      modifies this`usedBytes, this`blocks, arena
      ensures Valid() && blocks == Coalesce(old(blocks)[i := old(blocks)[i].(used := false)])
      ensures forall b | b in old(blocks) && b.used && b.Ptr() != old(blocks)[i].Ptr() ::
                Untouched(old(arena[..]), arena[..], b) && b in blocks
    {
      hide HeaderAt, Holds, Within, Range, Tiles, Coalesce, UsedPayload, Untouched;
      ghost var b0 := blocks[i];
      Walk(arena[..], blocks, i);
      SetUsed(block, false);
      HoldsReleased(old(arena[..]), arena[..], blocks, i);
      ReleaseUsed(blocks, i);
      usedBytes := usedBytes - PayloadSize(HeaderAt(arena[..], block).size);
      ghost var m1 := arena[..];
      blocks := blocks[i := b0.(used := false)];
      ghost var bs1 := blocks;
      CoalesceFreeBlocks();
      CoalesceUsed(bs1);
      OthersUntouched(old(arena[..]), m1, arena[..], old(blocks), i);
    }

    /** `memcpy` inside the arena. */
    method MemCopy(dst: nat, src: nat, n: nat)
      requires InArena(arena[..], dst, dst + n) && InArena(arena[..], src, src + n)
      requires dst + n <= src || src + n <= dst
      modifies arena
      ensures Within(old(arena[..]), arena[..], dst, dst + n)
      ensures Range(arena[..], dst, dst + n) == Range(old(arena[..]), src, src + n)
    {
      var d, s := dst - KHEAP_BASE, src - KHEAP_BASE;
      for i := 0 to n
        invariant arena[d..d + i] == old(arena[s..s + i])
        invariant forall j | 0 <= j < arena.Length && !(d <= j < d + i) :: arena[j] == old(arena[j])
      {
        arena[d + i] := arena[s + i];
        assert arena[d..d + i + 1] == arena[d..d + i] + [arena[d + i]];
        assert old(arena[s..s + i + 1]) == old(arena[s..s + i]) + [old(arena[s + i])];
      }
    }

    /** A block that is large enough stays; otherwise its whole payload moves to a new block and the old one is
        released; when there is no room nothing changes. The copy must fit the new block, see
        `HeapBlocks.OverrunExact`. */
    method Realloc(ptr: nat, size: Word) returns (newPtr: nat)
      requires Valid()
      requires ptr == 0 || (head != 0 && FindPtr(blocks, ptr) < |blocks| && blocks[FindPtr(blocks, ptr)].used)
      requires ptr != 0 ==> !Overruns(blocks, ptr, size)
      modifies this`usedBytes, this`blocks, arena
      ensures Valid() && head == old(head)
      ensures head != 0 ==> blocks == ReallocBlocks(old(blocks), ptr, size)
      ensures ptr == 0 ==> newPtr == if head == 0 || size == 0 then 0 else AllocPtr(old(blocks), Need(size))
      ensures ptr != 0 && size == 0 ==> newPtr == 0
      ensures ptr != 0 && size != 0 ==>
                var payload := old(blocks)[FindPtr(old(blocks), ptr)].Payload();
                && (newPtr == ptr <==> payload >= size)
                && (payload < size ==> newPtr == AllocPtr(old(blocks), Need(size)))
      ensures ptr != 0 && size != 0 && newPtr == 0 ==> blocks == old(blocks) && arena[..] == old(arena[..])
      ensures ptr != 0 && newPtr == ptr ==>
                && blocks == old(blocks) && arena[..] == old(arena[..])
                && old(blocks)[FindPtr(old(blocks), ptr)].Payload() >= size
      ensures ptr != 0 && newPtr != 0 && newPtr != ptr ==>
                var n := old(blocks)[FindPtr(old(blocks), ptr)].Payload();
                && InArena(arena[..], newPtr, newPtr + n) && InArena(arena[..], ptr, ptr + n)
                && Range(arena[..], newPtr, newPtr + n) == old(Range(arena[..], ptr, ptr + n))
      ensures forall b | b in old(blocks) && b.used && b.Ptr() != ptr ::
                Untouched(old(arena[..]), arena[..], b) && b in blocks
    {
      hide HeaderAt, Holds, Within, AllocBlocks, FreeBlocks, Need, UsedPayload, Range, AllocPtr;
      SameMemory(arena[..], blocks);
      if ptr == 0 {
        newPtr := Alloc(size);
        return;
      }
      if size == 0 {
        Free(ptr);
        return 0;
      }
      ghost var i := FindPtr(blocks, ptr);
      ghost var b := blocks[i];
      Walk(arena[..], blocks, i);
      var h := HeaderAt(arena[..], ptr - HEADER);
      var current := PayloadSize(h.size);
      if current >= size {
        return ptr;
      }
      newPtr := Alloc(size);
      AllocOutcome(old(blocks), size);
      if newPtr == 0 {
        return;
      }
      ghost var m1 := arena[..];
      ghost var c := NewBlock(old(arena[..]), m1, old(blocks), size, b);
      PayloadKept(old(arena[..]), m1, b);
      MoveBlock(newPtr, ptr, current, b, c);
    }

    /** The payload of block `b` goes to block `c`, and `b` is released. */
    method MoveBlock(newPtr: nat, ptr: nat, n: nat, ghost b: Block, ghost c: Block)
      requires Valid() && head != 0 && b in blocks && c in blocks && b.used && c.used && b.addr != c.addr
      requires ptr == b.Ptr() != 0 && newPtr == c.Ptr() && n == b.Payload() <= c.Payload()
      requires b.size >= HEADER && c.size >= HEADER && (b.End() <= c.addr || c.End() <= b.addr)
      requires InArena(arena[..], b.addr, b.End()) && InArena(arena[..], c.addr, c.End())
      modifies this`usedBytes, this`blocks, arena
      ensures Valid() && head == old(head) && blocks == FreeBlocks(old(blocks), ptr)
      ensures InArena(arena[..], newPtr, newPtr + n) && InArena(arena[..], ptr, ptr + n)
      ensures Range(arena[..], newPtr, newPtr + n) == old(Range(arena[..], ptr, ptr + n))
      ensures forall d | d in old(blocks) && d.used && d.Ptr() != ptr && d.addr != c.addr ::
                Untouched(old(arena[..]), arena[..], d) && d in blocks
    {
      hide HeaderAt, Holds, Within, FreeBlocks, UsedPayload, Range, Untouched;
      MemCopy(newPtr, ptr, n);
      HoldsPayload(old(arena[..]), arena[..], blocks, c, n);
      ghost var m2 := arena[..];
      Free(ptr);
      MovedAway(old(arena[..]), m2, arena[..], old(blocks), blocks, b, c, n);
    }
  }

  lemma UsedSurvivesAlloc(bs: seq<Block>, need: nat)
    ensures forall b | b in bs && b.used :: b in AllocBlocks(bs, need)
  {
    hide Carve;
    var i := FirstFit(bs, need);
    if i < |bs| {
      assert bs == bs[..i] + [bs[i]] + bs[i + 1..];
    }
  }

  lemma AllocOutcome(bs: seq<Block>, size: Word)
    ensures AllocPtr(bs, Need(size)) == 0 <==> FirstFit(bs, Need(size)) == |bs|
    ensures FirstFit(bs, Need(size)) == |bs| ==> AllocBlocks(bs, Need(size)) == bs
  {
    hide Need;
  }

  lemma Disjoint(bs: seq<Block>, b: Block, c: Block)
    requires Tiled(bs) && b in bs && c in bs && b.addr != c.addr
    ensures b.End() <= c.addr || c.End() <= b.addr
  {
    hide Tiles;
    var i :| 0 <= i < |bs| && bs[i] == b;
    var j :| 0 <= j < |bs| && bs[j] == c;
    BlockBounds(bs, KHEAP_BASE, KHEAP_BASE + ARENA_SIZE, i);
  }

  lemma OtherAddress(bs: seq<Block>, i: nat, d: Block)
    requires Tiled(bs) && i < |bs| && d in bs && d != bs[i]
    ensures d.addr != bs[i].addr
  {
    hide Tiles;
    var j :| 0 <= j < |bs| && bs[j] == d;
    BlockBounds(bs, KHEAP_BASE, KHEAP_BASE + ARENA_SIZE, j);
    BlockBounds(bs, KHEAP_BASE, KHEAP_BASE + ARENA_SIZE, i);
  }

  /** The block that a successful request hands out: in use, and apart from every block that was in use. */
  lemma NewBlock(m: seq<Byte>, m1: seq<Byte>, bs: seq<Block>, size: Word, b: Block) returns (c: Block)
    requires Holds(m, bs) && Holds(m1, AllocBlocks(bs, Need(size))) && b in bs && b.used
    requires FirstFit(bs, Need(size)) < |bs|
    ensures c in AllocBlocks(bs, Need(size)) && c.used && c.Ptr() == AllocPtr(bs, Need(size))
    ensures c.Payload() == Carve(bs[FirstFit(bs, Need(size))], Need(size))[0].Payload()
    ensures forall d | d in bs && d.used :: d.addr != c.addr && (d.End() <= c.addr || c.End() <= d.addr)
    ensures InArena(m1, c.addr, c.End()) && InArena(m1, b.addr, b.End()) && c.size >= HEADER && b.size >= HEADER
  {
    hide Tiles, Need, NodeOk, Carve;
    NeedCovers(size);
    var i, r := FirstFit(bs, Need(size)), AllocBlocks(bs, Need(size));
    BlockBounds(bs, KHEAP_BASE, KHEAP_BASE + ARENA_SIZE, i);
    CarveRoom(bs[i], Need(size));
    SpliceAt(bs, i, Carve(bs[i], Need(size)));
    c := r[i];
    assert c in r;
    UsedSurvivesAlloc(bs, Need(size));
    assert c.addr == bs[i].addr && Tiled(r);
    forall d | d in bs && d.used
      ensures d.addr != c.addr && (d.End() <= c.addr || c.End() <= d.addr)
    {
      OtherAddress(bs, i, d);
      Disjoint(r, d, c);
    }
    TilesBounds(r, KHEAP_BASE, KHEAP_BASE + ARENA_SIZE);
  }

  /** Writing into the payload of a block disturbs neither the list nor any other block. */
  lemma HoldsPayload(m: seq<Byte>, m': seq<Byte>, bs: seq<Block>, c: Block, n: nat)
    requires Holds(m, bs) && c in bs && n <= c.Payload() && Within(m, m', c.Ptr(), c.Ptr() + n)
    ensures Holds(m', bs)
    ensures forall d | d in bs && d.addr != c.addr :: Untouched(m, m', d)
  {
    hide Tiles, HeaderAt, Within, Range;
    WithinSize(m, m', c.Ptr(), c.Ptr() + n);
    TilesBounds(bs, KHEAP_BASE, KHEAP_BASE + ARENA_SIZE);
    forall d | d in bs
      ensures NodeOk(m', d) && (d.addr != c.addr ==> Untouched(m, m', d))
    {
      assert NodeOk(m, d);
      if d.addr != c.addr {
        Disjoint(bs, d, c);
        RangeElsewhere(m, m', c.Ptr(), c.Ptr() + n, d.addr, d.End());
      }
      HeaderElsewhere(m, m', c.Ptr(), c.Ptr() + n, d.addr);
    }
  }

  /** The copy arrives and survives the release of the old block. */
  lemma MovedAway(m1: seq<Byte>, m2: seq<Byte>, m3: seq<Byte>, bs1: seq<Block>, bs3: seq<Block>, b: Block, c: Block,
                  n: nat)
    requires n <= c.Payload() && c in bs1 && c.used && c.size >= HEADER && c.Ptr() != b.Ptr()
    requires InArena(m1, c.addr, c.End())
    requires |m1| == |m2| == |m3| && InArena(m1, b.Ptr(), b.Ptr() + n)
    requires Range(m2, c.Ptr(), c.Ptr() + n) == Range(m1, b.Ptr(), b.Ptr() + n)
    requires forall d | d in bs1 && d.addr != c.addr :: Untouched(m1, m2, d)
    requires forall d | d in bs1 && d.used && d.Ptr() != b.Ptr() :: Untouched(m2, m3, d) && d in bs3
    ensures InArena(m3, c.Ptr(), c.Ptr() + n) && Range(m3, c.Ptr(), c.Ptr() + n) == Range(m1, b.Ptr(), b.Ptr() + n)
    ensures forall d | d in bs1 && d.used && d.Ptr() != b.Ptr() && d.addr != c.addr :: Untouched(m1, m3, d) && d in bs3
  {
    hide Range;
    assert Untouched(m2, m3, c);
    SubRange(m2, m3, c.addr, c.End(), c.Ptr(), c.Ptr() + n);
  }

  /** The payload of a block that a request left alone. */
  lemma PayloadKept(m: seq<Byte>, m1: seq<Byte>, b: Block)
    requires Untouched(m, m1, b) && |m1| == |m| && b.size >= HEADER && InArena(m, b.addr, b.End())
    ensures InArena(m, b.Ptr(), b.End()) && Range(m1, b.Ptr(), b.End()) == Range(m, b.Ptr(), b.End())
  {
    hide Range;
    SubRange(m, m1, b.addr, b.End(), b.Ptr(), b.End());
  }

  /** A copy of 32 bytes over a node makes the copied bytes its header. */
  lemma CopiedHeader(m: seq<Byte>, m': seq<Byte>, addr: nat, from: nat)
    requires InArena(m, from, from + HEADER) && InArena(m', addr, addr + HEADER)
    requires Range(m', addr, addr + HEADER) == Range(m, from, from + HEADER)
    ensures HeaderAt(m', addr) == HeaderAt(m, from)
  {
    hide Decode;
    var a, b := addr - KHEAP_BASE, from - KHEAP_BASE;
    MiddleSlice(m', a, a + HEADER, a, a + 8);
    MiddleSlice(m, b, b + HEADER, b, b + 8);
    MiddleSlice(m', a, a + HEADER, a + 8, a + 16);
    MiddleSlice(m, b, b + HEADER, b + 8, b + 16);
    assert m'[a + 16] == m'[a..a + HEADER][16] && m[b + 16] == m[b..b + HEADER][16];
  }

  /**
    * What the overrun of `HeapBlocks.OverrunExample` does: the list survives only if the bytes that the program had in
    * its block happen to be the header of the node that they replace.
    */
  lemma OverrunBreaksList(m: seq<Byte>, m': seq<Byte>)
    requires Holds(m, SPLIT) && |m'| == |m|
    requires InArena(m, KHEAP_BASE + HEADER, KHEAP_BASE + 96 + HEADER)
    requires InArena(m', KHEAP_BASE + 96, KHEAP_BASE + 96 + HEADER)
    requires Range(m', KHEAP_BASE + 96, KHEAP_BASE + 96 + HEADER) ==
             Range(m, KHEAP_BASE + HEADER, KHEAP_BASE + 2 * HEADER)
    ensures Holds(m', SPLIT) ==> HeaderAt(m, KHEAP_BASE + HEADER) == Header(ARENA_SIZE - 96, 0, false)
  {
    hide HeaderAt, Range, Tiles;
    CopiedHeader(m, m', KHEAP_BASE + 96, KHEAP_BASE + HEADER);
    if Holds(m', SPLIT) {
      LastNodeHeader(m', SPLIT);
    }
  }

  lemma LastNodeHeader(m: seq<Byte>, bs: seq<Block>)
    requires Holds(m, bs) && |bs| > 0
    ensures InArena(m, bs[|bs| - 1].addr, bs[|bs| - 1].addr + HEADER)
    ensures HeaderAt(m, bs[|bs| - 1].addr) == Header(bs[|bs| - 1].size, 0, bs[|bs| - 1].used)
  {
    hide HeaderAt, Tiles;
    var b := bs[|bs| - 1];
    assert b in bs && NodeOk(m, b);
    BlockBounds(bs, KHEAP_BASE, KHEAP_BASE + ARENA_SIZE, |bs| - 1);
  }

  lemma SubRange(m: seq<Byte>, m': seq<Byte>, lo: nat, hi: nat, a: nat, b: nat)
    requires |m| == |m'| && InArena(m, lo, hi) && lo <= a <= b <= hi && Range(m', lo, hi) == Range(m, lo, hi)
    ensures Range(m', a, b) == Range(m, a, b)
  {
    MiddleSlice(m, lo - KHEAP_BASE, hi - KHEAP_BASE, a - KHEAP_BASE, b - KHEAP_BASE);
    MiddleSlice(m', lo - KHEAP_BASE, hi - KHEAP_BASE, a - KHEAP_BASE, b - KHEAP_BASE);
  }

  lemma MiddleSlice(m: seq<Byte>, lo: nat, hi: nat, a: nat, b: nat)
    requires lo <= a <= b <= hi <= |m|
    ensures m[lo..hi][a - lo..b - lo] == m[a..b]
  {
    var x := m[lo..hi][a - lo..b - lo];
    forall k | 0 <= k < b - a
      ensures x[k] == m[a..b][k]
    {
      assert x[k] == m[lo..hi][a - lo + k];
    }
  }

  lemma OneBlock(bs: seq<Block>)
    requires |bs| > 0
    ensures NoFreeNeighbours(bs[..1])
  {
  }

  lemma LastNode(m: seq<Byte>, bs: seq<Block>, k: nat)
    requires Holds(m, bs) && k < |bs| && AddrOf(bs, k + 1) == 0
    ensures k + 1 == |bs|
  {
    NonNullAt(m, bs, k + 1);
  }

  lemma NextNode(m: seq<Byte>, bs: seq<Block>, k: nat)
    requires Holds(m, bs) && k < |bs| && AddrOf(bs, k + 1) != 0
    ensures k + 1 < |bs| && bs[k + 1].addr == bs[k].End()
  {
    BlockBounds(bs, KHEAP_BASE, KHEAP_BASE + ARENA_SIZE, k);
  }

  lemma ExtendPrefix(bs: seq<Block>, k: nat)
    requires k + 1 < |bs| && NoFreeNeighbours(bs[..k + 1]) && (bs[k].used || bs[k + 1].used)
    ensures NoFreeNeighbours(bs[..k + 2])
  {
    NoFreeConcat(bs[..k + 1], [bs[k + 1]]);
    assert bs[..k + 2] == bs[..k + 1] + [bs[k + 1]];
  }

  lemma MergeSizes(m: seq<Byte>, bs: seq<Block>, k: nat)
    requires Holds(m, bs) && k + 1 < |bs|
    ensures bs[k].size + bs[k + 1].size < U64 && AddrOf(bs, k + 2) < U64
  {
    var lo, hi := KHEAP_BASE, KHEAP_BASE + ARENA_SIZE;
    BlockBounds(bs, lo, hi, k);
    BlockBounds(bs, lo, hi, k + 1);
    if k + 2 < |bs| {
      BlockBounds(bs, lo, hi, k + 2);
    }
  }

  lemma MergedPrefix(bs: seq<Block>, k: nat)
    requires k + 1 < |bs| && !bs[k].used && NoFreeNeighbours(bs[..k + 1])
    ensures var merged := bs[..k] + [Merge(bs[k], bs[k + 1])] + bs[k + 2..]; NoFreeNeighbours(merged[..k + 1])
  {
    hide NoFreeNeighbours;
    var merged := bs[..k] + [Merge(bs[k], bs[k + 1])] + bs[k + 2..];
    assert bs[..k + 1] == bs[..k] + [bs[k]];
    assert merged[..k + 1] == bs[..k] + [Merge(bs[k], bs[k + 1])];
    NoFreeConcat(bs[..k], [bs[k]]);
    NoFreeConcat(bs[..k], [Merge(bs[k], bs[k + 1])]);
    OneBlock([Merge(bs[k], bs[k + 1])]);
    assert [Merge(bs[k], bs[k + 1])][..1] == [Merge(bs[k], bs[k + 1])];
  }

  lemma WithinTwice(a: seq<Byte>, b: seq<Byte>, c: seq<Byte>, lo: nat, hi: nat)
    requires Within(a, b, lo, hi) && Within(b, c, lo, hi)
    ensures Within(a, c, lo, hi)
  {
  }

  lemma FindPtrIs(bs: seq<Block>, ptr: nat, i: nat)
    requires i <= |bs| && (i < |bs| ==> bs[i].Ptr() == ptr) && forall j | 0 <= j < i :: bs[j].Ptr() != ptr
    ensures FindPtr(bs, ptr) == i
  {
    var f := FindPtr(bs, ptr);
    assert f < |bs| ==> bs[f].Ptr() == ptr;
  }

  lemma ReleaseUsed(bs: seq<Block>, i: nat)
    requires i < |bs| && bs[i].used
    ensures UsedPayload(bs[i := bs[i].(used := false)]) == UsedPayload(bs) - bs[i].Payload()
    ensures bs[i].Payload() <= UsedPayload(bs)
  {
    var b := bs[i].(used := false);
    UsedAround(bs, i, [b]);
    UsedOne(b);
    UsedOne(bs[i]);
    assert Splice(bs, i, [b]) == bs[i := b];
  }

  /** The blocks that stay in use through the two phases of a release. */
  lemma OthersUntouched(m: seq<Byte>, m1: seq<Byte>, m2: seq<Byte>, bs: seq<Block>, i: nat)
    requires i < |bs| && UsedUntouched(m, m1, bs[..i] + bs[i + 1..])
    requires UsedUntouched(m1, m2, bs[i := bs[i].(used := false)])
    ensures forall b | b in bs && b.used && b.Ptr() != bs[i].Ptr() ::
              Untouched(m, m2, b) && b in bs[i := bs[i].(used := false)]
  {
    hide Range;
    var r := bs[i := bs[i].(used := false)];
    forall b | b in bs && b.used && b.Ptr() != bs[i].Ptr()
      ensures Untouched(m, m2, b) && b in r
    {
      var j :| 0 <= j < |bs| && bs[j] == b;
      assert r[j] == b;
      assert b in bs[..i] + bs[i + 1..] by {
        if j < i {
          assert bs[..i][j] == b;
        } else {
          assert bs[i + 1..][j - i - 1] == b;
        }
      }
    }
  }
}