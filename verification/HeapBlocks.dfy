/** The block list of the kernel heap (kheap.c), as a value: what allocation, release and coalescing make of it. */
module HeapBlocks {
  import opened Words

  const KHEAP_BASE: nat := 0x0200_0000
  const ARENA_SIZE: nat := 128 * 1024 * 1024
  const ALIGN: nat := 16
  const HEADER: nat := 32

  datatype Block = Block(addr: nat, size: nat, used: bool) {
    function End(): nat { addr + size }

    function Ptr(): nat { addr + HEADER }

    function Payload(): nat {
      if size <= HEADER then 0 else size - HEADER
    }
  }

  // ---------- well-formed lists ----------

  /** The blocks fill `lo .. hi` in address order, without gap or overlap; sizes are multiples of 16 with room for a
      header. */
  ghost predicate Tiles(bs: seq<Block>, lo: nat, hi: nat) {
    if |bs| == 0 then lo == hi
    else bs[0].addr == lo && bs[0].size >= HEADER && bs[0].size % ALIGN == 0 && Tiles(bs[1..], lo + bs[0].size, hi)
  }

  ghost predicate Tiled(bs: seq<Block>) {
    Tiles(bs, KHEAP_BASE, KHEAP_BASE + ARENA_SIZE)
  }

  ghost predicate NoFreeNeighbours(bs: seq<Block>) {
    |bs| < 2 || ((bs[0].used || bs[1].used) && NoFreeNeighbours(bs[1..]))
  }

  ghost predicate BigEnough(bs: seq<Block>) {
    forall b | b in bs :: b.size >= HEADER + ALIGN
  }

  ghost predicate WellFormed(bs: seq<Block>) {
    Tiled(bs) && BigEnough(bs) && NoFreeNeighbours(bs)
  }

  ghost function Total(bs: seq<Block>): nat {
    if |bs| == 0 then 0 else bs[0].size + Total(bs[1..])
  }

  function UsedPayload(bs: seq<Block>): nat {
    if |bs| == 0 then 0 else (if bs[0].used then bs[0].Payload() else 0) + UsedPayload(bs[1..])
  }

  const INITIAL: seq<Block> := [Block(KHEAP_BASE, ARENA_SIZE, false)]

  // ---------- the operations ----------

  predicate Fits(b: Block, need: nat) {
    !b.used && b.Payload() >= need
  }

  /** The first block that fits, or the length of the list. */
  function FirstFit(bs: seq<Block>, need: nat): (i: nat)
    ensures i <= |bs|
    ensures i < |bs| ==> Fits(bs[i], need)
    ensures forall j | 0 <= j < i :: !Fits(bs[j], need)
  {
    if |bs| == 0 || Fits(bs[0], need) then 0 else 1 + FirstFit(bs[1..], need)
  }

  /** What becomes of a chosen block: a used block and, if the rest has room for a header and 16 bytes, a free one. */
  function Carve(b: Block, need: nat): seq<Block>
    requires Fits(b, need)
  {
    if b.Payload() - need >= HEADER + ALIGN then
      [Block(b.addr, HEADER + need, true), Block(b.addr + HEADER + need, b.Payload() - need, false)]
    else [b.(used := true)]
  }

  function Splice(bs: seq<Block>, i: nat, piece: seq<Block>): seq<Block>
    requires i < |bs|
  {
    bs[..i] + piece + bs[i + 1..]
  }

  /** `align_up(size, 16)`, in 64 bits. */
  function Need(size: Word): nat { AlignUp(size, ALIGN) }

  /** `kheap_alloc` for a request of `need` bytes after rounding. */
  function AllocBlocks(bs: seq<Block>, need: nat): seq<Block> {
    var i := FirstFit(bs, need);
    if i == |bs| then bs else Splice(bs, i, Carve(bs[i], need))
  }

  function Merge(a: Block, b: Block): Block {
    Block(a.addr, a.size + b.size, false)
  }

  /** `coalesce_free_blocks` */
  function Coalesce(bs: seq<Block>): seq<Block>
    decreases |bs|
  {
    if |bs| < 2 then bs
    else if !bs[0].used && !bs[1].used then Coalesce([Merge(bs[0], bs[1])] + bs[2..])
    else [bs[0]] + Coalesce(bs[1..])
  }

  /** The block whose payload starts at `ptr`, or the length of the list. */
  function FindPtr(bs: seq<Block>, ptr: nat): (i: nat)
    ensures i <= |bs|
    ensures i < |bs| ==> bs[i].Ptr() == ptr
    ensures forall j | 0 <= j < i :: bs[j].Ptr() != ptr
  {
    if |bs| == 0 || bs[0].Ptr() == ptr then 0 else 1 + FindPtr(bs[1..], ptr)
  }

  /** `kheap_free`: unknown and already free pointers are ignored. */
  function FreeBlocks(bs: seq<Block>, ptr: nat): seq<Block> {
    var i := FindPtr(bs, ptr);
    if i == |bs| || !bs[i].used then bs else Coalesce(bs[i := bs[i].(used := false)])
  }

  /** The pointer that `kheap_alloc` returns. */
  function AllocPtr(bs: seq<Block>, need: nat): nat {
    var i := FirstFit(bs, need);
    if i == |bs| then 0 else bs[i].Ptr()
  }

  // ---------- tiling ----------

  lemma {:induction false} TilesConcat(a: seq<Block>, b: seq<Block>, lo: nat, hi: nat)
    ensures Tiles(a + b, lo, hi) <==> Tiles(a, lo, lo + Total(a)) && Tiles(b, lo + Total(a), hi)
    decreases |a|
  {
    if |a| == 0 {
      assert a + b == b;
    } else {
      assert (a + b)[1..] == a[1..] + b;
      TilesConcat(a[1..], b, lo + a[0].size, hi);
    }
  }

  lemma {:induction false} TilesBounds(bs: seq<Block>, lo: nat, hi: nat)
    requires Tiles(bs, lo, hi)
    ensures hi == lo + Total(bs)
    ensures forall b | b in bs :: lo <= b.addr && b.End() <= hi && b.size >= HEADER && b.size % ALIGN == 0
    decreases |bs|
  {
    if |bs| != 0 {
      TilesBounds(bs[1..], lo + bs[0].size, hi);
      assert forall b | b in bs :: b == bs[0] || b in bs[1..];
    }
  }

  /** The three parts around block `i`. */
  lemma TilesAround(bs: seq<Block>, lo: nat, hi: nat, i: nat)
    requires Tiles(bs, lo, hi) && i < |bs|
    ensures bs == bs[..i] + ([bs[i]] + bs[i + 1..])
    ensures Tiles(bs[..i], lo, bs[i].addr) && Tiles(bs[i + 1..], bs[i].End(), hi)
    ensures bs[i].size >= HEADER && bs[i].size % ALIGN == 0 && bs[i].addr == lo + Total(bs[..i])
  {
    hide Tiles, Total;
    assert bs == bs[..i] + ([bs[i]] + bs[i + 1..]);
    TilesConcat(bs[..i], [bs[i]] + bs[i + 1..], lo, hi);
    TilesCons(bs[i], bs[i + 1..], lo + Total(bs[..i]), hi);
  }

  lemma TilesCons(b: Block, rest: seq<Block>, lo: nat, hi: nat)
    ensures Tiles([b] + rest, lo, hi) <==>
            b.addr == lo && b.size >= HEADER && b.size % ALIGN == 0 && Tiles(rest, b.End(), hi)
  {
    assert ([b] + rest)[1..] == rest;
  }

  /** Every block lies inside the arena, its successor starts where it ends, and no other block overlaps it. */
  lemma BlockBounds(bs: seq<Block>, lo: nat, hi: nat, i: nat)
    requires Tiles(bs, lo, hi) && i < |bs|
    ensures lo <= bs[i].addr && bs[i].End() <= hi && bs[i].size >= HEADER && bs[i].size % ALIGN == 0
    ensures if i + 1 < |bs| then bs[i + 1].addr == bs[i].End() else bs[i].End() == hi
    ensures forall j | 0 <= j < i :: bs[j].End() <= bs[i].addr
    ensures forall j | i < j < |bs| :: bs[i].End() <= bs[j].addr
  {
    TilesAround(bs, lo, hi, i);
    TilesBounds(bs[..i], lo, bs[i].addr);
    TilesBounds(bs[i + 1..], bs[i].End(), hi);
    forall j | 0 <= j < i
      ensures bs[j].End() <= bs[i].addr
    {
      assert bs[..i][j] in bs[..i];
    }
    forall j | i < j < |bs|
      ensures bs[i].End() <= bs[j].addr
    {
      assert bs[i + 1..][j - i - 1] in bs[i + 1..];
    }
  }

  /** Replacing a block by pieces that fill the same room keeps the tiling. */
  lemma SpliceTiles(bs: seq<Block>, lo: nat, hi: nat, i: nat, piece: seq<Block>)
    requires Tiles(bs, lo, hi) && i < |bs| && Tiles(piece, bs[i].addr, bs[i].End())
    ensures Tiles(Splice(bs, i, piece), lo, hi)
  {
    TilesAround(bs, lo, hi, i);
    TilesBounds(bs[..i], lo, bs[i].addr);
    TilesBounds(piece, bs[i].addr, bs[i].End());
    TilesConcat(piece, bs[i + 1..], bs[i].addr, hi);
    TilesConcat(bs[..i], piece + bs[i + 1..], lo, hi);
    assert Splice(bs, i, piece) == bs[..i] + (piece + bs[i + 1..]);
  }

  lemma CarveTiles(b: Block, need: nat)
    requires Fits(b, need) && b.size >= HEADER && b.size % ALIGN == 0 && need % ALIGN == 0
    ensures Tiles(Carve(b, need), b.addr, b.End())
  {
    var piece := Carve(b, need);
    if |piece| == 2 {
      assert piece[1..] == [piece[1]] && piece[1..][1..] == [];
    } else {
      assert piece[1..] == [];
    }
  }

  /** Carving keeps the tiling, for any request, wrapped or not. */
  lemma AllocTiles(bs: seq<Block>, lo: nat, hi: nat, need: nat)
    requires Tiles(bs, lo, hi) && need % ALIGN == 0
    ensures Tiles(AllocBlocks(bs, need), lo, hi)
  {
    TilesBounds(bs, lo, hi);
    var i := FirstFit(bs, need);
    if i < |bs| {
      assert bs[i] in bs;
      CarveTiles(bs[i], need);
      SpliceTiles(bs, lo, hi, i, Carve(bs[i], need));
    }
  }

  lemma {:induction false} NoFreeConcat(a: seq<Block>, b: seq<Block>)
    ensures NoFreeNeighbours(a + b) <==>
            NoFreeNeighbours(a) && NoFreeNeighbours(b) && (|a| > 0 && |b| > 0 ==> a[|a| - 1].used || b[0].used)
    decreases |a|
  {
    if |a| == 0 {
      assert a + b == b;
    } else {
      assert (a + b)[1..] == a[1..] + b;
      NoFreeConcat(a[1..], b);
    }
  }

  /** A free block between two parts: its neighbours are in use. */
  lemma NoFreeAround(bs: seq<Block>, i: nat)
    requires NoFreeNeighbours(bs) && i < |bs|
    ensures NoFreeNeighbours(bs[..i]) && NoFreeNeighbours(bs[i + 1..]) && NoFreeNeighbours(bs[i..])
    ensures NoFreeNeighbours(bs[..i + 1])
    ensures !bs[i].used ==> (i > 0 ==> bs[i - 1].used) && (i + 1 < |bs| ==> bs[i + 1].used)
  {
    assert bs == bs[..i] + bs[i..];
    NoFreeConcat(bs[..i], bs[i..]);
    assert bs[i..][1..] == bs[i + 1..];
    assert bs == bs[..i + 1] + bs[i + 1..];
    NoFreeConcat(bs[..i + 1], bs[i + 1..]);
  }

  /** Allocation keeps the invariant for every request that rounds to at least 16 bytes. */
  lemma AllocWellFormed(bs: seq<Block>, need: nat)
    requires WellFormed(bs) && need % ALIGN == 0 && need >= ALIGN
    ensures WellFormed(AllocBlocks(bs, need))
  {
    hide Tiles, NoFreeNeighbours, AllocBlocks;
    AllocTiles(bs, KHEAP_BASE, KHEAP_BASE + ARENA_SIZE, need);
    AllocApart(bs, need);
  }

  lemma AllocApart(bs: seq<Block>, need: nat)
    requires BigEnough(bs) && NoFreeNeighbours(bs)
    requires need >= ALIGN || FirstFit(bs, need) == |bs| || bs[FirstFit(bs, need)].Payload() < HEADER + ALIGN
    ensures BigEnough(AllocBlocks(bs, need)) && NoFreeNeighbours(AllocBlocks(bs, need))
  {
    hide NoFreeNeighbours, Carve;
    var i := FirstFit(bs, need);
    if i < |bs| {
      var piece := Carve(bs[i], need);
      assert bs[i] in bs;
      NoFreeAround(bs, i);
      CarveBig(bs[i], need);
      NoFreeConcat(piece, bs[i + 1..]);
      NoFreeConcat(bs[..i], piece + bs[i + 1..]);
      assert AllocBlocks(bs, need) == bs[..i] + (piece + bs[i + 1..]);
      forall b | b in AllocBlocks(bs, need)
        ensures b.size >= HEADER + ALIGN
      {
        assert b in piece || b in bs;
      }
    }
  }

  lemma CarveBig(b: Block, need: nat)
    requires Fits(b, need) && b.size >= HEADER + ALIGN && (need >= ALIGN || b.Payload() < HEADER + ALIGN)
    ensures BigEnough(Carve(b, need)) && NoFreeNeighbours(Carve(b, need)) && |Carve(b, need)| > 0
    ensures Carve(b, need)[0].used
  {
  }

  // ---------- coalescing ----------

  lemma {:induction false} CoalesceNothing(bs: seq<Block>)
    requires NoFreeNeighbours(bs)
    ensures Coalesce(bs) == bs
    decreases |bs|
  {
    if |bs| >= 2 {
      CoalesceNothing(bs[1..]);
      assert bs == [bs[0]] + bs[1..];
    }
  }

  /** One merge inside the loop does not change where coalescing leads. */
  lemma {:induction false} CoalesceMerge(bs: seq<Block>, k: nat)
    requires k + 1 < |bs| && !bs[k].used && !bs[k + 1].used && NoFreeNeighbours(bs[..k + 1])
    ensures Coalesce(bs[..k] + [Merge(bs[k], bs[k + 1])] + bs[k + 2..]) == Coalesce(bs)
    decreases k
  {
    var m := Merge(bs[k], bs[k + 1]);
    var merged := bs[..k] + [m] + bs[k + 2..];
    if k == 0 {
      assert merged == [m] + bs[2..];
    } else {
      var tail := bs[1..];
      assert bs[..k + 1][1..] == tail[..k];
      CoalesceMerge(tail, k - 1);
      assert merged[1..] == tail[..k - 1] + [Merge(tail[k - 1], tail[k])] + tail[k + 1..];
      assert merged[0] == bs[0] && (bs[0].used || bs[1].used);
      assert Coalesce(merged) == [bs[0]] + Coalesce(merged[1..]);
    }
  }

  lemma MergeFirst(bs: seq<Block>, lo: nat, hi: nat)
    requires Tiles(bs, lo, hi) && |bs| >= 2
    ensures Tiles([Merge(bs[0], bs[1])] + bs[2..], lo, hi)
  {
    assert bs[1..][1..] == bs[2..];
    assert ([Merge(bs[0], bs[1])] + bs[2..])[1..] == bs[2..];
  }

  /** Coalescing yields a tiling of the same room without free neighbours. */
  lemma {:induction false} CoalesceResult(bs: seq<Block>, lo: nat, hi: nat)
    requires Tiles(bs, lo, hi) && BigEnough(bs)
    ensures Tiles(Coalesce(bs), lo, hi) && BigEnough(Coalesce(bs)) && NoFreeNeighbours(Coalesce(bs))
    ensures |bs| > 0 ==> |Coalesce(bs)| > 0 && Coalesce(bs)[0].used == bs[0].used
    decreases |bs|
  {
    if |bs| >= 2 {
      if !bs[0].used && !bs[1].used {
        MergeFirst(bs, lo, hi);
        var merged := [Merge(bs[0], bs[1])] + bs[2..];
        assert bs[0] in bs;
        assert forall b | b in merged :: b == merged[0] || b in bs;
        CoalesceResult(merged, lo, hi);
      } else {
        CoalesceResult(bs[1..], lo + bs[0].size, hi);
        var c := Coalesce(bs[1..]);
        assert ([bs[0]] + c)[1..] == c;
      }
    }
  }

  /** Release keeps the invariant. */
  lemma FreeWellFormed(bs: seq<Block>, ptr: nat)
    requires WellFormed(bs)
    ensures WellFormed(FreeBlocks(bs, ptr))
  {
    var i := FindPtr(bs, ptr);
    if i < |bs| && bs[i].used {
      ReleaseTiles(bs, KHEAP_BASE, KHEAP_BASE + ARENA_SIZE, i);
      var r := bs[i := bs[i].(used := false)];
      assert bs[i] in bs;
      assert forall b | b in r :: b in bs || b == r[i];
      CoalesceResult(r, KHEAP_BASE, KHEAP_BASE + ARENA_SIZE);
    }
  }

  lemma ReleaseTiles(bs: seq<Block>, lo: nat, hi: nat, i: nat)
    requires Tiles(bs, lo, hi) && i < |bs|
    ensures Tiles(bs[i := bs[i].(used := false)], lo, hi)
  {
    var b := bs[i].(used := false);
    TilesAround(bs, lo, hi, i);
    assert [b][1..] == [];
    SpliceTiles(bs, lo, hi, i, [b]);
    assert Splice(bs, i, [b]) == bs[i := b];
  }

  // ---------- what allocation and release promise together ----------

  /** Coalescing does not reach back over a used block. */
  lemma {:induction false} CoalesceAfter(prefix: seq<Block>, rest: seq<Block>)
    requires NoFreeNeighbours(prefix) && (|prefix| > 0 ==> prefix[|prefix| - 1].used)
    ensures Coalesce(prefix + rest) == prefix + Coalesce(rest)
    decreases |prefix|
  {
    if |prefix| == 0 {
      assert prefix + rest == rest && prefix + Coalesce(rest) == Coalesce(rest);
    } else {
      var all := prefix + rest;
      var tail := prefix[1..];
      assert all[1..] == tail + rest;
      CoalesceAfter(tail, rest);
      if |all| >= 2 {
        assert Coalesce(all) == [all[0]] + Coalesce(all[1..]);
      } else {
        assert rest == [] && tail == [];
      }
      assert prefix + Coalesce(rest) == [prefix[0]] + (tail + Coalesce(rest));
    }
  }

  /** Coalescing undoes a carve when the block after it is in use. */
  lemma CoalesceUncarve(b: Block, need: nat, rest: seq<Block>)
    requires Fits(b, need) && b.size >= HEADER && NoFreeNeighbours([b] + rest)
    ensures var piece := Carve(b, need); Coalesce([piece[0].(used := false)] + (piece[1..] + rest)) == [b] + rest
  {
    var piece := Carve(b, need);
    CoalesceNothing([b] + rest);
    if |piece| == 1 {
      assert [piece[0].(used := false)] + (piece[1..] + rest) == [b] + rest;
    } else {
      var two := [piece[0].(used := false)] + (piece[1..] + rest);
      assert two[2..] == rest;
      assert Merge(two[0], two[1]) == b;
    }
  }

  /** Freeing the pointer that an allocation has just returned restores the block list exactly. */
  lemma AllocFreeRestores(bs: seq<Block>, need: nat)
    requires WellFormed(bs) && need % ALIGN == 0 && FirstFit(bs, need) < |bs|
    ensures FreeBlocks(AllocBlocks(bs, need), AllocPtr(bs, need)) == bs
  {
    hide BigEnough, Carve, Tiles, NoFreeNeighbours, Coalesce, AllocBlocks, AllocPtr, FindPtr;
    var i := FirstFit(bs, need);
    BlockBounds(bs, KHEAP_BASE, KHEAP_BASE + ARENA_SIZE, i);
    AllocFound(bs, need);
    CoalesceRestores(bs, i, need);
  }

  /** The allocated block is found again under the returned pointer; releasing it leaves its pieces between the old
      neighbours. */
  lemma AllocFound(bs: seq<Block>, need: nat)
    requires Tiled(bs) && need % ALIGN == 0 && FirstFit(bs, need) < |bs|
    ensures var i, r := FirstFit(bs, need), AllocBlocks(bs, need);
            var piece := Carve(bs[i], need);
            && FindPtr(r, AllocPtr(bs, need)) == i < |r| && r[i].used && |piece| > 0
            && r[i := r[i].(used := false)] == bs[..i] + ([piece[0].(used := false)] + (piece[1..] + bs[i + 1..]))
  {
    hide Carve, Tiles, Splice, FindPtr;
    var lo, hi := KHEAP_BASE, KHEAP_BASE + ARENA_SIZE;
    var i := FirstFit(bs, need);
    BlockBounds(bs, lo, hi, i);
    CarveFirst(bs[i], need);
    AllocTiles(bs, lo, hi, need);
    SpliceAt(bs, i, Carve(bs[i], need));
    PtrUnique(AllocBlocks(bs, need), lo, hi, i);
  }

  lemma SpliceAt(bs: seq<Block>, i: nat, piece: seq<Block>)
    requires i < |bs| && |piece| > 0
    ensures var r := Splice(bs, i, piece);
            && i < |r| && r[i] == piece[0]
            && forall b :: r[i := b] == bs[..i] + ([b] + (piece[1..] + bs[i + 1..]))
  {
  }

  lemma CoalesceRestores(bs: seq<Block>, i: nat, need: nat)
    requires NoFreeNeighbours(bs) && i < |bs| && Fits(bs[i], need) && bs[i].size >= HEADER
    ensures var piece := Carve(bs[i], need);
            |piece| > 0 && Coalesce(bs[..i] + ([piece[0].(used := false)] + (piece[1..] + bs[i + 1..]))) == bs
  {
    hide NoFreeNeighbours, Coalesce, Carve;
    CarveFirst(bs[i], need);
    var piece := Carve(bs[i], need);
    NoFreeAround(bs, i);
    CoalesceAfter(bs[..i], [piece[0].(used := false)] + (piece[1..] + bs[i + 1..]));
    assert [bs[i]] + bs[i + 1..] == bs[i..];
    CoalesceUncarve(bs[i], need, bs[i + 1..]);
    assert bs == bs[..i] + bs[i..];
  }

  lemma CarveFirst(b: Block, need: nat)
    requires Fits(b, need) && b.size >= HEADER
    ensures |Carve(b, need)| > 0 && Carve(b, need)[0].used && Carve(b, need)[0].Ptr() == b.Ptr()
  {
  }

  lemma PtrUnique(bs: seq<Block>, lo: nat, hi: nat, i: nat)
    requires Tiles(bs, lo, hi) && i < |bs|
    ensures FindPtr(bs, bs[i].Ptr()) == i
  {
    BlockBounds(bs, lo, hi, i);
    var j := FindPtr(bs, bs[i].Ptr());
    if j < i {
      BlockBounds(bs, lo, hi, j);
    }
  }

  /** A release leaves exactly the other blocks in use, each where it was. */
  lemma FreeUsed(bs: seq<Block>, ptr: nat)
    requires Tiled(bs)
    ensures forall b: Block | b.used :: b in FreeBlocks(bs, ptr) <==> b in bs && b.Ptr() != ptr
  {
    hide Tiles, Coalesce;
    var i := FindPtr(bs, ptr);
    if i < |bs| {
      PtrOnce(bs, i);
      if bs[i].used {
        var r := bs[i := bs[i].(used := false)];
        CoalesceUsed(r);
        forall b: Block | b.used
          ensures b in r <==> b in bs && b.Ptr() != ptr
        {
          if b in bs && b.Ptr() != ptr {
            var j :| 0 <= j < |bs| && bs[j] == b;
            assert r[j] == b;
          }
        }
      }
    }
  }

  lemma PtrOnce(bs: seq<Block>, i: nat)
    requires Tiled(bs) && i < |bs|
    ensures forall j | 0 <= j < |bs| && j != i :: bs[j].Ptr() != bs[i].Ptr()
  {
    hide Tiles;
    BlockBounds(bs, KHEAP_BASE, KHEAP_BASE + ARENA_SIZE, i);
    TilesBounds(bs, KHEAP_BASE, KHEAP_BASE + ARENA_SIZE);
    assert forall j | 0 <= j < |bs| :: bs[j] in bs;
  }

  /** The well-formed list after a release is the one in which exactly the other blocks are in use, whatever lies before
      and behind the block. */
  lemma FreeExact(bs: seq<Block>, ptr: nat, r: seq<Block>)
    requires WellFormed(bs) && WellFormed(r)
    ensures r == FreeBlocks(bs, ptr) <==> forall b: Block | b.used :: b in r <==> b in bs && b.Ptr() != ptr
  {
    hide Tiles, NoFreeNeighbours, BigEnough, FreeBlocks;
    FreeUsed(bs, ptr);
    FreeWellFormed(bs, ptr);
    if forall b: Block | b.used :: b in r <==> b in bs && b.Ptr() != ptr {
      UsedDecide(r, FreeBlocks(bs, ptr), KHEAP_BASE, KHEAP_BASE + ARENA_SIZE);
    }
  }

  /** The blocks in use decide a well-formed list: the free blocks are the gaps between them. */
  lemma {:induction false} UsedDecide(a: seq<Block>, b: seq<Block>, lo: nat, hi: nat)
    requires Tiles(a, lo, hi) && Tiles(b, lo, hi) && NoFreeNeighbours(a) && NoFreeNeighbours(b)
    requires forall c: Block | c.used :: c in a <==> c in b
    ensures a == b
    decreases |a|
  {
    hide NoFreeNeighbours;
    if |a| == 0 {
      NoRoom(b, lo);
    } else if |b| == 0 {
      NoRoom(a, lo);
    } else {
      SameFirst(a, b, lo, hi);
      TailUsed(a, lo, hi);
      TailUsed(b, lo, hi);
      assert NoFreeNeighbours(a[1..]) && NoFreeNeighbours(b[1..]) by {
        NoFreeAround(a, 0);
        NoFreeAround(b, 0);
      }
      UsedDecide(a[1..], b[1..], a[0].End(), hi);
      assert a == [a[0]] + a[1..] && b == [b[0]] + b[1..];
    }
  }

  lemma NoRoom(a: seq<Block>, lo: nat)
    requires Tiles(a, lo, lo)
    ensures a == []
  {
    if |a| > 0 {
      TilesBounds(a[1..], lo + a[0].size, lo);
    }
  }

  lemma TailUsed(a: seq<Block>, lo: nat, hi: nat)
    requires Tiles(a, lo, hi) && |a| > 0
    ensures Tiles(a[1..], a[0].End(), hi)
    ensures forall c :: c in a[1..] <==> c in a && c != a[0]
  {
    hide Tiles;
    TilesAround(a, lo, hi, 0);
    TilesBounds(a[1..], a[0].End(), hi);
    forall c
      ensures c in a[1..] <==> c in a && c != a[0]
    {
      assert a == [a[0]] + a[1..];
    }
  }

  lemma SameFirst(a: seq<Block>, b: seq<Block>, lo: nat, hi: nat)
    requires Tiles(a, lo, hi) && Tiles(b, lo, hi) && NoFreeNeighbours(a) && NoFreeNeighbours(b) && |a| > 0 && |b| > 0
    requires forall c: Block | c.used :: c in a <==> c in b
    ensures a[0] == b[0]
  {
    FirstEnds(a, b, lo, hi);
    FirstEnds(b, a, lo, hi);
  }

  /** A first block in use is first in the other list too, and a first free block does not end later there. */
  lemma FirstEnds(a: seq<Block>, b: seq<Block>, lo: nat, hi: nat)
    requires Tiles(a, lo, hi) && Tiles(b, lo, hi) && NoFreeNeighbours(a) && |a| > 0 && |b| > 0
    requires forall c: Block | c.used :: c in a <==> c in b
    ensures a[0].used ==> a[0] == b[0]
    ensures !a[0].used && !b[0].used ==> b[0].size <= a[0].size
  {
    hide Tiles, NoFreeNeighbours;
    TilesBounds(b, lo, hi);
    NoFreeAround(a, 0);
    assert a[0].addr == b[0].addr == lo by {
      BlockBounds(a, lo, hi, 0);
      TilesAround(a, lo, hi, 0);
      TilesAround(b, lo, hi, 0);
      assert a[..0] == [] && b[..0] == [];
    }
    if a[0].used {
      assert a[0] in a;
      FirstAt(b, lo, hi, a[0]);
    } else {
      BlockBounds(a, lo, hi, 0);
      if |a| > 1 && !b[0].used {
        assert a[1] in a && a[1].used;
        var j :| 0 <= j < |b| && b[j] == a[1];
        BlockBounds(b, lo, hi, 0);
      } else {
        assert b[0] in b;
      }
    }
  }

  lemma FirstAt(b: seq<Block>, lo: nat, hi: nat, c: Block)
    requires Tiles(b, lo, hi) && c in b && c.addr == lo
    ensures |b| > 0 && c == b[0]
  {
    var j :| 0 <= j < |b| && b[j] == c;
    BlockBounds(b, lo, hi, 0);
  }

  /** Once nothing is in use the heap is a single free block of the whole arena. */
  lemma AllFreed(bs: seq<Block>)
    requires WellFormed(bs) && forall b | b in bs :: !b.used
    ensures bs == INITIAL
  {
    assert |bs| > 0;
    if |bs| == 1 {
      assert bs[1..] == [];
      assert bs[0] in bs;
      assert Tiles(bs[1..], KHEAP_BASE + bs[0].size, KHEAP_BASE + ARENA_SIZE);
      assert bs[0] == Block(KHEAP_BASE, ARENA_SIZE, false);
      assert bs == [bs[0]];
    }
  }

  /** Rounding covers the request exactly when `size + 15` does not wrap. */
  lemma NeedCovers(size: Word)
    ensures Need(size) % ALIGN == 0
    ensures Need(size) >= size <==> size + 15 < U64
    ensures size + 15 < U64 ==> Need(size) <= size + 15 && (size > 0 ==> Need(size) >= ALIGN)
    ensures size + 15 >= U64 ==> Need(size) == 0
  {
  }

  /** The block handed out has room for the request, if and only if the rounding does not wrap, and wastes at most 47
      bytes. */
  lemma AllocSuits(bs: seq<Block>, size: Word)
    requires WellFormed(bs) && size > 0 && FirstFit(bs, Need(size)) < |bs|
    ensures var i := FirstFit(bs, Need(size));
            var b := AllocBlocks(bs, Need(size))[i];
            && b.used && b.Ptr() == AllocPtr(bs, Need(size))
            && (b.Payload() >= size <==> size + 15 < U64)
            && (size + 15 < U64 ==> b.Payload() - size <= 47)
  {
    hide Tiles, NoFreeNeighbours, Need, BigEnough, Carve, Splice;
    NeedCovers(size);
    var i := FirstFit(bs, Need(size));
    BlockBounds(bs, KHEAP_BASE, KHEAP_BASE + ARENA_SIZE, i);
    CarveRoom(bs[i], Need(size));
    SpliceAt(bs, i, Carve(bs[i], Need(size)));
  }

  lemma CarveRoom(b: Block, need: nat)
    requires Fits(b, need) && b.size >= HEADER && b.size % ALIGN == 0 && need % ALIGN == 0
    ensures |Carve(b, need)| > 0
    ensures var c := Carve(b, need)[0];
            c.used && c.Ptr() == b.Ptr() && need <= c.Payload() <= need + 32 && c.Payload() <= b.Payload()
  {
  }

  /** The pointer handed out: null exactly if no free block has room for a header and the rounded request, and else the
      payload of the lowest block that has. */
  lemma AllocPtrExact(bs: seq<Block>, need: nat)
    requires Tiled(bs)
    ensures AllocPtr(bs, need) == 0 <==> forall b | b in bs :: b.used || b.size < HEADER + need
    ensures AllocPtr(bs, need) != 0 ==>
              exists b :: b in bs && LowestRoom(bs, need, b) && AllocPtr(bs, need) == b.addr + HEADER
  {
    hide Tiles;
    var i := FirstFit(bs, need);
    TilesBounds(bs, KHEAP_BASE, KHEAP_BASE + ARENA_SIZE);
    if i == |bs| {
      forall b | b in bs
        ensures b.used || b.size < HEADER + need
      {
        var j :| 0 <= j < |bs| && bs[j] == b;
        assert !Fits(bs[j], need);
      }
    } else {
      assert bs[i] in bs;
      forall c | c in bs && !c.used && HEADER + need <= c.size
        ensures bs[i].addr <= c.addr
      {
        var j :| 0 <= j < |bs| && bs[j] == c;
        BlockBounds(bs, KHEAP_BASE, KHEAP_BASE + ARENA_SIZE, i);
      }
      assert LowestRoom(bs, need, bs[i]);
    }
  }

  /** A free block with room for a header and `need` bytes, and no other such block is below it. */
  ghost predicate LowestRoom(bs: seq<Block>, need: nat, b: Block) {
    && !b.used && HEADER + need <= b.size
    && forall c | c in bs && !c.used && HEADER + need <= c.size :: b.addr <= c.addr
  }

  // ---------- requests whose rounding wraps ----------

  /** There is no free block, or the first one is too small to be split. */
  predicate Tight(bs: seq<Block>) {
    var i := FirstFit(bs, 0);
    i == |bs| || bs[i].Payload() < HEADER + ALIGN
  }

  /** A request keeps the invariant if and only if its rounding does not wrap or the first free block cannot be
      split. */
  lemma RequestExact(bs: seq<Block>, size: Word)
    requires WellFormed(bs) && size > 0
    ensures WellFormed(AllocBlocks(bs, Need(size))) <==> size + 15 < U64 || Tight(bs)
  {
    hide NoFreeNeighbours, AllocBlocks, Need, FirstFit, Tiles;
    NeedCovers(size);
    if size + 15 < U64 {
      AllocWellFormed(bs, Need(size));
    } else if Tight(bs) {
      AllocTiles(bs, KHEAP_BASE, KHEAP_BASE + ARENA_SIZE, 0);
      AllocApart(bs, 0);
    } else {
      var c := EmptyBlock(bs);
    }
  }

  /** Otherwise the wrapped request leaves a block without payload in use. */
  lemma EmptyBlock(bs: seq<Block>) returns (c: Block)
    requires !Tight(bs)
    ensures c == Block(bs[FirstFit(bs, 0)].addr, HEADER, true) && c in AllocBlocks(bs, 0)
    ensures !BigEnough(AllocBlocks(bs, 0))
  {
    var i := FirstFit(bs, 0);
    SpliceAt(bs, i, Carve(bs[i], 0));
    c := AllocBlocks(bs, 0)[i];
  }

  /** It stays in use when another block is freed. */
  lemma EmptyStays(bs: seq<Block>, ptr: nat)
    requires !Tight(bs) && ptr != bs[FirstFit(bs, 0)].Ptr()
    ensures !BigEnough(FreeBlocks(AllocBlocks(bs, 0), ptr))
  {
    hide Coalesce, AllocBlocks, FindPtr;
    var c := EmptyBlock(bs);
    var r := AllocBlocks(bs, 0);
    var i := FindPtr(r, ptr);
    if i < |r| && r[i].used {
      var freed := r[i := r[i].(used := false)];
      CoalesceUsed(freed);
      var k :| 0 <= k < |r| && r[k] == c;
      assert freed[k] == c && c in freed;
    }
  }

  /** `kheap_realloc` copies more than the block that it copies to has room for. */
  predicate Overruns(bs: seq<Block>, ptr: nat, size: Word)
    requires FindPtr(bs, ptr) < |bs|
  {
    var f, payload := FirstFit(bs, Need(size)), bs[FindPtr(bs, ptr)].Payload();
    size > 0 && payload < size && f < |bs| && payload > Carve(bs[f], Need(size))[0].Payload()
  }

  /**
    * The copy runs past the new block exactly when the rounding wraps, a free block exists, and that block is split,
    * which leaves no payload at all, or is smaller than what is copied.
    */
  lemma OverrunExact(bs: seq<Block>, ptr: nat, size: Word)
    requires WellFormed(bs) && FindPtr(bs, ptr) < |bs| && bs[FindPtr(bs, ptr)].used
    ensures var f := FirstFit(bs, 0);
            Overruns(bs, ptr, size) <==>
            size + 15 >= U64 && f < |bs| && (!Tight(bs) || bs[FindPtr(bs, ptr)].Payload() > bs[f].Payload())
  {
    hide FirstFit, FindPtr, Need, NoFreeNeighbours;
    NeedCovers(size);
    TilesBounds(bs, KHEAP_BASE, KHEAP_BASE + ARENA_SIZE);
    var b := bs[FindPtr(bs, ptr)];
    assert b in bs && HEADER + ALIGN <= b.size <= ARENA_SIZE;
    if FirstFit(bs, Need(size)) < |bs| {
      var f := bs[FirstFit(bs, Need(size))];
      assert f in bs;
      CarveRoom(f, Need(size));
    }
  }

  /** One used block of 64 bytes before the free rest. */
  const SMALL: seq<Block> := [Block(KHEAP_BASE, 64, true), Block(KHEAP_BASE + 64, ARENA_SIZE - 64, false)]

  /** The same after a wrapped request: a block without payload, and the rest behind it. */
  const SPLIT: seq<Block> :=
    [SMALL[0], Block(KHEAP_BASE + 64, HEADER, true), Block(KHEAP_BASE + 96, ARENA_SIZE - 96, false)]

  /** Growing the first block there to a size that wraps copies 32 bytes over the header of the block split off. */
  lemma OverrunExample(size: Word)
    requires size + 15 >= U64
    ensures WellFormed(SMALL) && FindPtr(SMALL, KHEAP_BASE + HEADER) == 0 && Overruns(SMALL, KHEAP_BASE + HEADER, size)
    ensures AllocBlocks(SMALL, Need(size)) == SPLIT && AllocPtr(SMALL, Need(size)) == SPLIT[2].addr
    ensures SMALL[0].Payload() == HEADER
  {
    NeedCovers(size);
    assert SMALL[1..] == [SMALL[1]] && SMALL[1..][1..] == [];
    assert Tiles([], KHEAP_BASE + ARENA_SIZE, KHEAP_BASE + ARENA_SIZE);
    assert Tiles([SMALL[1]], KHEAP_BASE + 64, KHEAP_BASE + ARENA_SIZE);
    assert FirstFit([SMALL[1]], 0) == 0;
    assert FirstFit(SMALL, 0) == 1;
    assert Carve(SMALL[1], 0) == SPLIT[1..];
    assert SMALL[..1] == [SMALL[0]] && SMALL[2..] == [];
  }

  // ---------- the byte counter ----------

  lemma {:induction false} UsedConcat(a: seq<Block>, b: seq<Block>)
    ensures UsedPayload(a + b) == UsedPayload(a) + UsedPayload(b)
    decreases |a|
  {
    if |a| == 0 {
      assert a + b == b;
    } else {
      assert (a + b)[1..] == a[1..] + b;
      UsedConcat(a[1..], b);
    }
  }

  lemma UsedAround(bs: seq<Block>, i: nat, piece: seq<Block>)
    requires i < |bs|
    ensures UsedPayload(Splice(bs, i, piece)) == UsedPayload(bs) - UsedPayload([bs[i]]) + UsedPayload(piece)
    ensures UsedPayload([bs[i]]) <= UsedPayload(bs)
  {
    hide UsedPayload;
    assert bs == bs[..i] + [bs[i]] + bs[i + 1..];
    UsedConcat(bs[..i] + [bs[i]], bs[i + 1..]);
    UsedConcat(bs[..i], [bs[i]]);
    UsedConcat(bs[..i] + piece, bs[i + 1..]);
    UsedConcat(bs[..i], piece);
  }

  lemma UsedOne(b: Block)
    ensures UsedPayload([b]) == if b.used then b.Payload() else 0
  {
    assert [b][1..] == [];
  }

  /** Coalescing touches free blocks only. */
  lemma {:induction false} CoalesceUsed(bs: seq<Block>)
    ensures UsedPayload(Coalesce(bs)) == UsedPayload(bs)
    ensures forall b: Block | b.used :: b in Coalesce(bs) <==> b in bs
    decreases |bs|
  {
    if |bs| >= 2 {
      if !bs[0].used && !bs[1].used {
        var merged := [Merge(bs[0], bs[1])] + bs[2..];
        CoalesceUsed(merged);
        assert merged[1..] == bs[2..] && bs[1..][1..] == bs[2..];
        assert bs == [bs[0], bs[1]] + bs[2..];
      } else {
        CoalesceUsed(bs[1..]);
        var c := Coalesce(bs[1..]);
        assert ([bs[0]] + c)[1..] == c;
        assert bs == [bs[0]] + bs[1..];
      }
    }
  }

  // ---------- runs ----------

  datatype HeapOp = Alloc(size: Word) | Free(ptr: nat) | Realloc(ptr: nat, size: Word)

  /** `kheap_realloc` as a combination of the other two; `ptr` is null or the payload of a block in use. */
  function ReallocBlocks(bs: seq<Block>, ptr: nat, size: Word): seq<Block> {
    if ptr == 0 then RequestBlocks(bs, size)
    else if size == 0 then FreeBlocks(bs, ptr)
    else
      var i := FindPtr(bs, ptr);
      if i < |bs| && bs[i].Payload() >= size then bs
      else if FirstFit(bs, Need(size)) == |bs| then bs
      else FreeBlocks(AllocBlocks(bs, Need(size)), ptr)
  }

  function RequestBlocks(bs: seq<Block>, size: Word): seq<Block> {
    if size == 0 then bs else AllocBlocks(bs, Need(size))
  }

  function StepBlocks(bs: seq<Block>, op: HeapOp): seq<Block> {
    match op
    case Alloc(size) => RequestBlocks(bs, size)
    case Free(ptr) => FreeBlocks(bs, ptr)
    case Realloc(ptr, size) => ReallocBlocks(bs, ptr, size)
  }

  /** The request survives the rounding to 16 bytes. */
  predicate NoWrap(op: HeapOp) {
    op.Free? || op.size + 15 < U64
  }

  function RunBlocks(bs: seq<Block>, ops: seq<HeapOp>): seq<Block>
    decreases |ops|
  {
    if |ops| == 0 then bs else RunBlocks(StepBlocks(bs, ops[0]), ops[1..])
  }

  /** A reallocation is asked for null or for a block in use. */
  predicate Proper(bs: seq<Block>, op: HeapOp) {
    op.Realloc? && op.ptr != 0 ==> FindPtr(bs, op.ptr) < |bs| && bs[FindPtr(bs, op.ptr)].used
  }

  /** Each operation keeps the invariant if and only if its request does not wrap or the first free block cannot be
      split. */
  lemma StepWellFormed(bs: seq<Block>, op: HeapOp)
    requires WellFormed(bs)
    ensures NoWrap(op) || Tight(bs) ==> WellFormed(StepBlocks(bs, op))
    ensures Proper(bs, op) ==> (WellFormed(StepBlocks(bs, op)) <==> NoWrap(op) || Tight(bs))
  {
    hide WellFormed, Need, AllocBlocks, FreeBlocks, FirstFit, Tight;
    match op {
      case Alloc(size) =>
        if size != 0 {
          RequestExact(bs, size);
        }
      case Free(ptr) =>
        FreeWellFormed(bs, ptr);
      case Realloc(ptr, size) =>
        FreeWellFormed(bs, ptr);
        if size != 0 {
          RequestExact(bs, size);
          if ptr != 0 {
            ReallocExact(bs, ptr, size);
          }
        }
    }
  }

  lemma ReallocExact(bs: seq<Block>, ptr: nat, size: Word)
    requires WellFormed(bs) && ptr != 0 && size != 0
    ensures size + 15 < U64 || Tight(bs) ==> WellFormed(ReallocBlocks(bs, ptr, size))
    ensures Proper(bs, Realloc(ptr, size)) ==>
              (WellFormed(ReallocBlocks(bs, ptr, size)) <==> size + 15 < U64 || Tight(bs))
  {
    hide Need, AllocBlocks, FreeBlocks, FirstFit, NoFreeNeighbours, Tiles;
    RequestExact(bs, size);
    if size + 15 < U64 || Tight(bs) {
      FreeWellFormed(AllocBlocks(bs, Need(size)), ptr);
    } else if Proper(bs, Realloc(ptr, size)) {
      SmallPayloads(bs);
      NeedCovers(size);
      assert bs[FindPtr(bs, ptr)] in bs;
      OtherPtr(bs, ptr);
      EmptyStays(bs, ptr);
    }
  }

  lemma SmallPayloads(bs: seq<Block>)
    requires Tiled(bs)
    ensures forall b | b in bs :: b.Payload() <= ARENA_SIZE
  {
    TilesBounds(bs, KHEAP_BASE, KHEAP_BASE + ARENA_SIZE);
  }

  lemma OtherPtr(bs: seq<Block>, ptr: nat)
    requires WellFormed(bs) && !Tight(bs) && FindPtr(bs, ptr) < |bs| && bs[FindPtr(bs, ptr)].used
    ensures ptr != bs[FirstFit(bs, 0)].Ptr()
  {
    hide FindPtr, FirstFit;
    PtrUnique(bs, KHEAP_BASE, KHEAP_BASE + ARENA_SIZE, FirstFit(bs, 0));
  }

  /** The invariant holds before and after each operation of a run. */
  ghost predicate WellFormedAlong(bs: seq<Block>, ops: seq<HeapOp>)
    decreases |ops|
  {
    WellFormed(bs) && (|ops| == 0 || WellFormedAlong(StepBlocks(bs, ops[0]), ops[1..]))
  }

  /** No operation of a run wraps where the first free block can be split. */
  predicate KeptAlong(bs: seq<Block>, ops: seq<HeapOp>)
    decreases |ops|
  {
    |ops| == 0 || ((NoWrap(ops[0]) || Tight(bs)) && KeptAlong(StepBlocks(bs, ops[0]), ops[1..]))
  }

  predicate ProperAlong(bs: seq<Block>, ops: seq<HeapOp>)
    decreases |ops|
  {
    |ops| == 0 || (Proper(bs, ops[0]) && ProperAlong(StepBlocks(bs, ops[0]), ops[1..]))
  }

  lemma {:induction false} NoWrapKept(bs: seq<Block>, ops: seq<HeapOp>)
    requires forall op | op in ops :: NoWrap(op)
    ensures KeptAlong(bs, ops)
    decreases |ops|
  {
    if |ops| > 0 {
      assert ops[0] in ops;
      NoWrapKept(StepBlocks(bs, ops[0]), ops[1..]);
    }
  }

  /**
    * Over every run the invariant holds throughout if and only if no request wraps where the first free block can be
    * split; and a run that leaves nothing in use then leaves the fresh heap.
    */
  lemma {:induction false} RunWellFormed(bs: seq<Block>, ops: seq<HeapOp>)
    requires WellFormed(bs)
    ensures KeptAlong(bs, ops) ==> WellFormedAlong(bs, ops)
    ensures ProperAlong(bs, ops) ==> (WellFormedAlong(bs, ops) <==> KeptAlong(bs, ops))
    ensures KeptAlong(bs, ops) && (forall b | b in RunBlocks(bs, ops) :: !b.used) ==> RunBlocks(bs, ops) == INITIAL
    decreases |ops|
  {
    hide WellFormed, StepBlocks, NoWrap, Tight, Proper;
    if |ops| == 0 {
      if forall b | b in bs :: !b.used {
        AllFreed(bs);
      }
    } else {
      StepWellFormed(bs, ops[0]);
      if WellFormed(StepBlocks(bs, ops[0])) {
        RunWellFormed(StepBlocks(bs, ops[0]), ops[1..]);
      }
    }
  }
}
