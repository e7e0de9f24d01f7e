/** The buddy heap as sets of blocks: what free and live blocks must look like, and what follows
    for every heap in that shape, whatever list order the allocator happens to keep. */
module BuddyHeap {
  import opened Bits

  /** A heap of `2^maxOrder` bytes at `base`. */
  datatype Heap = Heap(base: nat, minOrder: nat, maxOrder: nat) {
    /** The base is aligned to the heap size because the buddy address is computed by flipping a
        bit of the absolute address; order 3 is the 8 bytes of a `struct heapnode`. */
    predicate Ok() {
      0 < base && 3 <= minOrder <= maxOrder <= 31 && Aligned(base, maxOrder)
    }

    function End(): nat {
      base + Pow2(maxOrder)
    }

    function Whole(): Block {
      Block(base, maxOrder)
    }
  }

  datatype Block = Block(addr: nat, order: nat) {
    function End(): nat {
      addr + Pow2(order)
    }

    predicate Holds(x: int) {
      addr <= x < End()
    }

    predicate Within(b: Block) {
      b.addr <= addr && End() <= b.End()
    }

    function Buddy(): Block {
      Block(Xor(addr, Pow2(order)), order)
    }

    /** The window of the next order made of this block and its buddy. */
    function Parent(): Block {
      Block(if Aligned(addr, order + 1) then addr else Buddy().addr, order + 1)
    }

    function Left(): Block
      requires order > 0
    {
      Block(addr, order - 1)
    }

    function Right(): Block
      requires order > 0
    {
      Block(addr + Pow2(order - 1), order - 1)
    }
  }

  predicate Apart(b: Block, c: Block) {
    b.End() <= c.addr || c.End() <= b.addr
  }

  /** A naturally aligned window of the heap that the allocator could hand out. */
  predicate Window(h: Heap, b: Block) {
    h.minOrder <= b.order <= h.maxOrder && Aligned(b.addr, b.order) && h.base <= b.addr && b.End() <= h.End()
  }

  ghost predicate Covered(s: set<Block>, x: int) {
    exists b :: b in s && b.Holds(x)
  }

  /** The blocks of `s` are aligned windows, pairwise apart, and leave no byte of the heap out. */
  ghost predicate Tiled(h: Heap, s: set<Block>) {
    && (forall b :: b in s ==> Window(h, b))
    && (forall b, c :: b in s && c in s && b != c ==> Apart(b, c))
    && (forall x :: h.base <= x < h.End() ==> Covered(s, x))
  }

  /** No two buddies of one order are both free. */
  ghost predicate Coalesced(h: Heap, f: set<Block>) {
    forall b :: b in f && b.order < h.maxOrder ==> b.Buddy() !in f
  }

  /** The shape of every reachable heap. */
  ghost predicate Settled(h: Heap, f: set<Block>, l: set<Block>) {
    h.Ok() && f !! l && Tiled(h, f + l) && Coalesced(h, f)
  }

  ghost predicate WhollyFree(l: set<Block>, w: Block) {
    forall b :: b in l ==> Apart(b, w)
  }

  // ----- windows and their halves -----

  lemma BuddyOf(b: Block)
    requires Aligned(b.addr, b.order)
    ensures var p := b.Parent();
            && Aligned(p.addr, p.order) && p.order == b.order + 1
            && {b, b.Buddy()} == {p.Left(), p.Right()}
            && p.addr == if b.addr < b.Buddy().addr then b.addr else b.Buddy().addr
    ensures b.Buddy().Buddy() == b && b.Buddy() != b && b.Buddy().Parent() == b.Parent()
    ensures Aligned(b.Buddy().addr, b.order)
  {
    hide Xor, Aligned, Pow2;
    XorFlipsBit(b.addr, b.order);
    if Aligned(b.addr, b.order + 1) {
      assert b.Parent() == Block(b.addr, b.order + 1);
    } else {
      assert b.Parent() == Block(b.Buddy().addr, b.order + 1);
    }
  }

  lemma ParentOf(h: Heap, b: Block)
    requires h.Ok() && Window(h, b) && b.order < h.maxOrder
    ensures Window(h, b.Parent()) && Window(h, b.Buddy())
    ensures b.Buddy().Buddy() == b && b.Buddy() != b && b.Buddy().Parent() == b.Parent()
    ensures b.Parent().order > 0
    ensures {b, b.Buddy()} == {b.Parent().Left(), b.Parent().Right()}
    ensures b.Parent().addr == if b.addr < b.Buddy().addr then b.addr else b.Buddy().addr
  {
    hide Xor, Aligned;
    BuddyOf(b);
    var p := b.Parent();
    Pow2Mono(p.order, h.maxOrder);
    AlignedNest(p.addr, p.order, h.base, h.maxOrder);
    WindowHalves(h, p);
  }

  lemma WindowHalves(h: Heap, p: Block)
    requires p.order > 0 && h.base <= p.addr && p.End() <= h.End()
    ensures h.base <= p.Left().addr && p.Left().End() <= h.End()
    ensures h.base <= p.Right().addr && p.Right().End() <= h.End()
  {
  }

  lemma HalvesOf(h: Heap, w: Block)
    requires h.Ok() && Window(h, w) && w.order > h.minOrder
    ensures Window(h, w.Left()) && Window(h, w.Right())
    ensures w.Left().Buddy() == w.Right() && w.Right().Buddy() == w.Left()
    ensures w.Left().Parent() == w
  {
    hide Xor, Aligned;
    AlignedWeaken(w.addr, w.order - 1, w.order);
    AlignedPow2(w.order - 1, w.order - 1);
    AlignedSum(w.addr, Pow2(w.order - 1), w.order - 1);
    XorFlipsBit(w.addr, w.order - 1);
  }

  lemma Nested(h: Heap, b: Block, c: Block)
    requires Window(h, b) && Window(h, c) && b.order <= c.order && !Apart(b, c)
    ensures b.Within(c)
  {
    AlignedNest(b.addr, b.order, c.addr, c.order);
  }

  // ----- splitting and merging keep the tiling -----

  /** Blocks that hold the same bytes as one of the tiling may take its place. */
  lemma Exchanged(h: Heap, s: set<Block>, out: set<Block>, into: set<Block>)
    requires Tiled(h, s) && out <= s && forall b :: b in into ==> Window(h, b)
    requires forall b, c :: b in into && c in into && b != c ==> Apart(b, c)
    requires forall b, c :: b in into && c in s - out ==> Apart(b, c)
    requires forall b, x :: b in out && b.Holds(x) ==> Covered(into, x)
    ensures Tiled(h, s - out + into)
  {
    hide Window;
    var t := s - out + into;
    forall x | h.base <= x < h.End() ensures Covered(t, x) {
      assert Covered(s, x);
      var c :| c in s && c.Holds(x);
      if c in out {
        var d :| d in into && d.Holds(x);
        assert d in t;
      } else {
        assert c in t;
      }
    }
    forall b, c | b in t && c in t && b != c ensures Apart(b, c) {
      assert Apart(b, c) <==> Apart(c, b);
    }
  }

  /** The two halves hold what the whole holds. */
  lemma HalvesHold(w: Block)
    requires w.order > 0
    ensures forall x :: w.Holds(x) <==> w.Left().Holds(x) || w.Right().Holds(x)
    ensures forall c :: Apart(w, c) <==> Apart(w.Left(), c) && Apart(w.Right(), c)
    ensures Apart(w.Left(), w.Right())
  {
  }

  lemma SplitKeepsTiling(h: Heap, s: set<Block>, b: Block)
    requires h.Ok() && Tiled(h, s) && b in s && b.order > h.minOrder
    ensures Tiled(h, s - {b} + {b.Left(), b.Right()})
  {
    hide Xor, Aligned, Window;
    HalvesOf(h, b);
    HalvesHold(b);
    var l, r := b.Left(), b.Right();
    assert Apart(r, l) && l in {l, r} && r in {l, r};
    forall x | b.Holds(x) ensures Covered({l, r}, x) {
    }
    Exchanged(h, s, {b}, {l, r});
  }

  lemma MergeKeepsTiling(h: Heap, s: set<Block>, b: Block)
    requires h.Ok() && Tiled(h, s) && b in s && b.order < h.maxOrder && b.Buddy() in s
    ensures Tiled(h, s - {b, b.Buddy()} + {b.Parent()})
  {
    hide Xor, Aligned, Window;
    ParentOf(h, b);
    var p := b.Parent();
    HalvesHold(p);
    assert p.Left() in {b, b.Buddy()} && p.Right() in {b, b.Buddy()} && p in {p};
    forall c, x | c in {b, b.Buddy()} && c.Holds(x) ensures Covered({p}, x) {
    }
    Exchanged(h, s, {b, b.Buddy()}, {p});
  }

  /** Two blocks of a tiling never start at the same place. */
  lemma SameStart(h: Heap, s: set<Block>, b: Block, c: Block)
    requires Tiled(h, s) && b in s && c in s && b.addr == c.addr
    ensures b == c
  {
  }

  // ----- complete coalescing -----

  lemma BlockAround(h: Heap, f: set<Block>, l: set<Block>, w: Block) returns (b: Block)
    requires Settled(h, f, l) && Window(h, w) && WhollyFree(l, w)
    ensures b in f && b.Holds(w.addr)
  {
    assert w.Holds(w.addr);
    assert Covered(f + l, w.addr);
    b :| b in f + l && b.Holds(w.addr);
    assert !Apart(b, w);
  }

  lemma FreeWindow(h: Heap, f: set<Block>, l: set<Block>, b: Block)
    requires Settled(h, f, l) && b in f
    ensures h.Ok() && Window(h, b) && h.minOrder <= b.order <= h.maxOrder
    ensures b.order < h.maxOrder ==> b.Buddy() !in f
  {
  }

  lemma MeetsHalf(w: Block, b: Block, half: Block)
    requires (w.order > 0 && half in {w.Left(), w.Right()} && half.Within(b)) || (half.addr == w.addr && b.Holds(w.addr))
    ensures !Apart(w, b)
  {
  }

  lemma SameWindow(w: Block, b: Block)
    requires w.Within(b) && b.order == w.order
    ensures b == w
  {
  }

  lemma HalvesFree(l: set<Block>, w: Block)
    requires w.order > 0 && WhollyFree(l, w)
    ensures WhollyFree(l, w.Left()) && WhollyFree(l, w.Right())
  {
  }

  /** Every wholly free window lies inside one free block. */
  lemma {:induction false} FreeBlockAround(h: Heap, f: set<Block>, l: set<Block>, w: Block) returns (b: Block)
    requires Settled(h, f, l) && Window(h, w) && WhollyFree(l, w)
    ensures b in f && b.order >= w.order && w.Within(b)
    decreases w.order
  {
    hide Xor, Aligned, Settled, WhollyFree, Apart;
    b := BlockAround(h, f, l, w);
    FreeWindow(h, f, l, b);
    if b.order < w.order {
      HalvesOf(h, w);
      HalvesFree(l, w);
      var left := FreeBlockAround(h, f, l, w.Left());
      var right := FreeBlockAround(h, f, l, w.Right());
      FreeWindow(h, f, l, left);
      FreeWindow(h, f, l, right);
      if left.order < w.order {
        SameWindow(w.Left(), left);
        if right.order < w.order {
          SameWindow(w.Right(), right);
          assert false;
        }
      }
      b := if left.order >= w.order then left else right;
      MeetsHalf(w, left, w.Left());
      MeetsHalf(w, right, w.Right());
    } else {
      MeetsHalf(w, b, Block(w.addr, 0));
    }
    Nested(h, w, b);
  }

  /** The maximal wholly free windows: a description of the free blocks by the live ones alone. */
  ghost predicate Maximal(h: Heap, l: set<Block>, b: Block) {
    && Window(h, b) && WhollyFree(l, b)
    && (b.order < h.maxOrder ==> !WhollyFree(l, b.Parent()))
  }

  lemma FreeIsMaximal(h: Heap, f: set<Block>, l: set<Block>, b: Block)
    requires Settled(h, f, l) && b in f
    ensures Maximal(h, l, b)
  {
    if b.order < h.maxOrder && WhollyFree(l, b.Parent()) {
      ParentOf(h, b);
      assert b.Within(b.Parent());
      var c := FreeBlockAround(h, f, l, b.Parent());
      assert false;
    }
  }

  lemma MaximalIsFree(h: Heap, f: set<Block>, l: set<Block>, b: Block)
    requires Settled(h, f, l) && Maximal(h, l, b)
    ensures b in f
  {
    var c := FreeBlockAround(h, f, l, b);
    assert forall d :: d in l ==> Apart(d, c);
    if c.order > b.order {
      ParentOf(h, b);
      assert !Apart(b.Parent(), c);
      Nested(h, b.Parent(), c);
      assert false;
    } else {
      assert c == b;
    }
  }

  /** The free blocks are exactly the maximal wholly free windows. */
  lemma FreeBlocksAreMaximal(h: Heap, f: set<Block>, l: set<Block>)
    requires Settled(h, f, l)
    ensures forall b :: b in f <==> Maximal(h, l, b)
  {
    forall b ensures b in f <==> Maximal(h, l, b) {
      if b in f {
        FreeIsMaximal(h, f, l, b);
      } else if Maximal(h, l, b) {
        MaximalIsFree(h, f, l, b);
      }
    }
  }

  /** The set of free blocks is a function of the set of live blocks. */
  lemma FreeSetDetermined(h: Heap, f: set<Block>, g: set<Block>, l: set<Block>)
    requires Settled(h, f, l) && Settled(h, g, l)
    ensures f == g
  {
    FreeBlocksAreMaximal(h, f, l);
    FreeBlocksAreMaximal(h, g, l);
  }

  /** With nothing live, one block of maximum order is free. */
  lemma NothingLive(h: Heap, f: set<Block>)
    requires Settled(h, f, {})
    ensures f == {h.Whole()}
  {
    FreeBlocksAreMaximal(h, f, {});
    assert Maximal(h, {}, h.Whole());
    forall b | b in f ensures b == h.Whole() {
      assert !Apart(b, h.Whole());
    }
  }

  /** An allocation of order `k` is possible exactly when some aligned window of that order is
      wholly free. */
  lemma FreeBlockIffFreeWindow(h: Heap, f: set<Block>, l: set<Block>, k: nat)
    requires Settled(h, f, l) && h.minOrder <= k <= h.maxOrder
    ensures (exists b :: b in f && b.order >= k) <==> (exists w :: Window(h, w) && w.order == k && WhollyFree(l, w))
  {
    if w :| Window(h, w) && w.order == k && WhollyFree(l, w) {
      var b := FreeBlockAround(h, f, l, w);
    }
    if b :| b in f && b.order >= k {
      var w := FreeWindowIn(h, f, l, b, k);
    }
  }

  /** And exactly when some window of at least that order is wholly free. */
  lemma FreeBlockIffLargeWindow(h: Heap, f: set<Block>, l: set<Block>, k: nat)
    requires Settled(h, f, l)
    ensures (exists b :: b in f && b.order >= k) <==> (exists w :: Window(h, w) && w.order >= k && WhollyFree(l, w))
  {
    hide Aligned, Pow2, Tiled, Coalesced;
    if w :| Window(h, w) && w.order >= k && WhollyFree(l, w) {
      var b := FreeBlockAround(h, f, l, w);
    }
    if b :| b in f && b.order >= k {
      BlockIsWindow(h, f, l, b);
    }
  }

  lemma BlockIsWindow(h: Heap, f: set<Block>, l: set<Block>, b: Block)
    requires Settled(h, f, l) && b in f
    ensures Window(h, b) && WhollyFree(l, b)
  {
  }

  lemma FreeWindowIn(h: Heap, f: set<Block>, l: set<Block>, b: Block, k: nat) returns (w: Block)
    requires Settled(h, f, l) && h.minOrder <= k <= b.order && b in f
    ensures Window(h, w) && w.order == k && WhollyFree(l, w)
  {
    w := Block(b.addr, k);
    AlignedWeaken(b.addr, k, b.order);
    Pow2Mono(k, b.order);
    assert Window(h, b);
    forall d | d in l ensures Apart(d, w) {
      assert Apart(d, b);
    }
  }

  // ----- conservation -----

  ghost function Interval(lo: int, n: nat): (s: set<int>)
    ensures forall x :: x in s <==> lo <= x < lo + n
    ensures |s| == n
  {
    if n == 0 then {} else Interval(lo, n - 1) + {lo + n - 1}
  }

  ghost function Bytes(b: Block): set<int> {
    Interval(b.addr, Pow2(b.order))
  }

  ghost function Pick(s: set<Block>): (b: Block)
    requires s != {}
    ensures b in s
  {
    var b :| b in s; b
  }

  ghost function SizeOf(s: set<Block>): nat {
    if s == {} then 0 else Pow2(Pick(s).order) + SizeOf(s - {Pick(s)})
  }

  ghost function AllBytes(s: set<Block>): set<int> {
    set b, x | b in s && x in Bytes(b) :: x
  }

  lemma BytesOfApart(b: Block, s: set<Block>)
    requires forall c :: c in s ==> Apart(b, c)
    ensures Bytes(b) !! AllBytes(s)
  {
    forall x | x in AllBytes(s) ensures x !in Bytes(b) {
      var c :| c in s && x in Bytes(c);
      assert Apart(b, c);
    }
  }

  lemma AllBytesWith(s: set<Block>, b: Block)
    requires b in s
    ensures AllBytes(s) == Bytes(b) + AllBytes(s - {b})
  {
  }

  lemma {:induction false} SizeIsByteCount(s: set<Block>)
    requires forall b, c :: b in s && c in s && b != c ==> Apart(b, c)
    ensures SizeOf(s) == |AllBytes(s)|
  {
    if s == {} {
      assert AllBytes(s) == {};
    } else {
      var b := Pick(s);
      SizeIsByteCount(s - {b});
      BytesOfApart(b, s - {b});
      AllBytesWith(s, b);
    }
  }

  lemma SizeOfInsert(s: set<Block>, b: Block)
    requires b !in s
    requires forall c, d :: c in s + {b} && d in s + {b} && c != d ==> Apart(c, d)
    ensures SizeOf(s + {b}) == SizeOf(s) + Pow2(b.order)
  {
    hide SizeOf, AllBytes, Apart;
    SizeIsByteCount(s);
    SizeIsByteCount(s + {b});
    BytesOfApart(b, s);
    AllBytesWith(s + {b}, b);
    assert s + {b} - {b} == s;
  }

  lemma SizeOfUnion(f: set<Block>, l: set<Block>)
    requires f !! l
    requires forall b, c :: b in f + l && c in f + l && b != c ==> Apart(b, c)
    ensures SizeOf(f + l) == SizeOf(f) + SizeOf(l)
  {
    SizeIsByteCount(f);
    SizeIsByteCount(l);
    SizeIsByteCount(f + l);
    assert AllBytes(f + l) == AllBytes(f) + AllBytes(l);
    assert AllBytes(f) !! AllBytes(l) by {
      forall x | x in AllBytes(f) ensures x !in AllBytes(l) {
        var b :| b in f && x in Bytes(b);
        BytesOfApart(b, l);
      }
    }
  }

  /** Free and live bytes add up to the heap. */
  lemma Conservation(h: Heap, f: set<Block>, l: set<Block>)
    requires Settled(h, f, l)
    ensures SizeOf(f) + SizeOf(l) == Pow2(h.maxOrder)
  {
    var whole := Bytes(h.Whole());
    SizeOfUnion(f, l);
    SizeIsByteCount(f + l);
    forall x ensures x in AllBytes(f + l) <==> x in whole {
      if x in whole {
        assert Covered(f + l, x);
        var b :| b in f + l && b.Holds(x);
        assert x in Bytes(b);
      }
      if x in AllBytes(f + l) {
        var b :| b in f + l && x in Bytes(b);
        assert Window(h, b);
      }
    }
    assert AllBytes(f + l) == whole;
  }
}
