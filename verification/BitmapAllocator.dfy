/** The bitmap allocator of mm/bitfield_mm_malloc.c and mm/bitfield_mm_free.c: blocks of 32 grains with
    one bit per grain. Each call is atomic under the heap's mutex. */
module BitmapAllocator {
  import opened Wrappers
  import opened Bits
  import opened BitWords

  /** `mm_block_t`. */
  datatype Block = Block(freeGrains: nat, freeMask: nat)

  /** The count is that of the clear bits. */
  predicate BlockOk(b: Block) {
    b.freeMask < Pow2(32) && b.freeGrains == 32 - Count(b.freeMask)
  }

  ghost predicate AllOk(bs: seq<Block>) {
    forall i :: 0 <= i < |bs| ==> BlockOk(bs[i])
  }

  /** The bit of grain `g` of the heap is set. */
  predicate Used(bs: seq<Block>, g: nat) {
    g / 32 < |bs| && Bit(bs[g / 32].freeMask, g % 32)
  }

  ghost predicate RunFree(bs: seq<Block>, g: nat, n: nat) {
    forall k: nat :: g <= k < g + n ==> !Used(bs, k)
  }

  // ----- live allocations -----

  /** Where an allocation may lie: inside one block, or from the start of a block. */
  predicate Shaped(len: nat, g: nat, n: nat) {
    n >= 1 && if n < 32 then g / 32 < len && g % 32 + n <= 32 else g % 32 == 0 && g / 32 + n / 32 < len
  }

  ghost predicate Covered(live: map<nat, nat>, g: nat) {
    exists s :: s in live && s <= g < s + live[s]
  }

  /** The live allocations do not meet, and the bits set are exactly those of their grains. */
  ghost predicate LiveOk(bs: seq<Block>, live: map<nat, nat>) {
    && (forall s :: s in live ==> Shaped(|bs|, s, live[s]))
    && (forall s, t :: s in live && t in live && s < t ==> s + live[s] <= t)
    && (forall g: nat :: Used(bs, g) <==> Covered(live, g))
  }

  /** The bits of grains `g` to `g + n`, and only they, have become `taken`. */
  ghost predicate Changed(bs: seq<Block>, cs: seq<Block>, g: nat, n: nat, taken: bool) {
    |cs| == |bs| && forall k: nat :: Used(cs, k) <==> if g <= k < g + n then taken else Used(bs, k)
  }

  lemma LiveAfterAlloc(bs: seq<Block>, cs: seq<Block>, live: map<nat, nat>, g: nat, n: nat)
    requires LiveOk(bs, live) && Shaped(|bs|, g, n) && RunFree(bs, g, n) && Changed(bs, cs, g, n, true)
    ensures g !in live && LiveOk(cs, live[g := n])
  {
    hide Used, Shaped, Covered;
    ShapedSize(|bs|, g, n);
    forall s | s in live ensures s != g && (s + live[s] <= g || g + n <= s) {
      ApartFromFree(bs, live, g, n, s);
    }
    forall k: nat ensures Used(cs, k) <==> Covered(live[g := n], k) {
      CoveredMore(live, g, n, k);
    }
  }

  lemma ApartFromFree(bs: seq<Block>, live: map<nat, nat>, g: nat, n: nat, s: nat)
    requires LiveOk(bs, live) && RunFree(bs, g, n) && n >= 1 && s in live
    ensures s != g && (s + live[s] <= g || g + n <= s)
  {
    hide Used;
    ShapedSize(|bs|, s, live[s]);
    var k := if s < g then g else s;
    assert s <= k < s + live[s] ==> Covered(live, k);
    assert g <= k < g + n ==> !Used(bs, k);
  }

  lemma CoveredMore(live: map<nat, nat>, g: nat, n: nat, k: nat)
    requires g !in live
    ensures Covered(live[g := n], k) <==> Covered(live, k) || g <= k < g + n
  {
    var live' := live[g := n];
    if Covered(live', k) {
      var s :| s in live' && s <= k < s + live'[s];
      assert s != g ==> s in live && live[s] == live'[s];
    }
    if Covered(live, k) {
      var s :| s in live && s <= k < s + live[s];
      assert s in live' && live'[s] == live[s];
    }
    assert g in live' && live'[g] == n;
  }

  lemma ShapedSize(len: nat, g: nat, n: nat)
    requires Shaped(len, g, n)
    ensures n >= 1 && g + n <= 32 * len
  {
  }

  lemma LiveAfterFree(bs: seq<Block>, cs: seq<Block>, live: map<nat, nat>, g: nat)
    requires LiveOk(bs, live) && g in live && Changed(bs, cs, g, live[g], false)
    ensures LiveOk(cs, live - {g})
  {
    hide Used, Shaped, Covered;
    forall k: nat ensures Used(cs, k) <==> Covered(live - {g}, k) {
      CoveredLess(live, g, k);
    }
  }

  lemma CoveredLess(live: map<nat, nat>, g: nat, k: nat)
    requires g in live && forall s, t :: s in live && t in live && s < t ==> s + live[s] <= t
    ensures Covered(live - {g}, k) <==> Covered(live, k) && !(g <= k < g + live[g])
  {
    var live' := live - {g};
    if Covered(live', k) {
      var s :| s in live' && s <= k < s + live'[s];
      assert s in live && live[s] == live'[s];
    }
    if Covered(live, k) && !(g <= k < g + live[g]) {
      var s :| s in live && s <= k < s + live[s];
      assert s in live' && live'[s] == live[s];
    }
  }

  /** The live allocations determine every field of every block. */
  lemma BlocksFromLive(bs: seq<Block>, cs: seq<Block>, live: map<nat, nat>)
    requires |bs| == |cs| && AllOk(bs) && AllOk(cs) && LiveOk(bs, live) && LiveOk(cs, live)
    ensures bs == cs
  {
    forall i | 0 <= i < |bs| ensures bs[i] == cs[i] {
      forall k: nat ensures Bit(bs[i].freeMask, k) == Bit(cs[i].freeMask, k) {
        if k < 32 {
          GrainOf(bs, i, k);
          GrainOf(cs, i, k);
          assert Used(bs, 32 * i + k) <==> Covered(live, 32 * i + k);
        } else {
          HighBit(bs[i].freeMask, 32, k);
          HighBit(cs[i].freeMask, 32, k);
        }
      }
      SameBits(bs[i].freeMask, cs[i].freeMask);
    }
  }

  lemma GrainOf(bs: seq<Block>, i: nat, k: nat)
    requires i < |bs| && k < 32
    ensures (32 * i + k) / 32 == i && (32 * i + k) % 32 == k
    ensures Used(bs, 32 * i + k) <==> Bit(bs[i].freeMask, k)
  {
  }

  // ----- changes of the blocks -----

  /** `|=` of a clear field of one block, with its count. */
  function Claimed(b: Block, o: nat, n: nat): Block {
    Block(if b.freeGrains >= n then b.freeGrains - n else 0, Or(b.freeMask, Mask(n) * Pow2(o)))
  }

  /** `&= ~` of a field of one block, with its count. */
  function Released(b: Block, o: nat, n: nat): Block {
    Block(b.freeGrains + n, AndNot(b.freeMask, Mask(n) * Pow2(o)))
  }

  lemma ClaimedField(b: Block, o: nat, n: nat)
    requires BlockOk(b) && o + n <= 32 && Clear(b.freeMask, o, n)
    ensures n <= b.freeGrains && BlockOk(Claimed(b, o, n))
    ensures forall k: nat :: Bit(Claimed(b, o, n).freeMask, k) <==> Bit(b.freeMask, k) || o <= k < o + n
  {
    hide Or, Count, Bit, Pow2, Mask;
    FieldSet(b.freeMask, o, n);
    CountBound(Or(b.freeMask, Mask(n) * Pow2(o)), 32);
  }

  lemma ReleasedField(b: Block, o: nat, n: nat)
    requires BlockOk(b) && AllSet(b.freeMask, o, n)
    ensures BlockOk(Released(b, o, n))
    ensures forall k: nat :: Bit(Released(b, o, n).freeMask, k) <==> Bit(b.freeMask, k) && !(o <= k < o + n)
  {
    hide AndNot, Count, Bit, Pow2, Mask;
    FieldCleared(b.freeMask, o, n);
    CountBound(b.freeMask, 32);
  }

  /** A field of one block is a run of grains. */
  lemma FieldChanged(bs: seq<Block>, i: nat, b: Block, o: nat, n: nat, taken: bool)
    requires i < |bs| && o + n <= 32
    requires forall k: nat :: k < 32 ==>
               (Bit(b.freeMask, k) <==> if o <= k < o + n then taken else Bit(bs[i].freeMask, k))
    ensures Changed(bs, bs[i := b], 32 * i + o, n, taken)
  {
    hide Bit;
    var cs := bs[i := b];
    forall k: nat ensures Used(cs, k) <==> if 32 * i + o <= k < 32 * i + o + n then taken else Used(bs, k) {
      if k / 32 == i {
        assert k == 32 * i + k % 32;
      }
    }
  }

  /** Two runs side by side. */
  lemma ChangedMore(bs: seq<Block>, cs: seq<Block>, ds: seq<Block>, g: nat, n: nat, m: nat, taken: bool)
    requires Changed(bs, cs, g, n, taken) && Changed(cs, ds, g + n, m, taken)
    ensures Changed(bs, ds, g, n + m, taken)
  {
    hide Used;
  }

  lemma RunInBlock(bs: seq<Block>, i: nat, o: nat, n: nat)
    requires i < |bs| && o + n <= 32
    ensures RunFree(bs, 32 * i + o, n) <==> Clear(bs[i].freeMask, o, n)
  {
    hide Bit;
    if RunFree(bs, 32 * i + o, n) {
      forall k | o <= k < o + n ensures !Bit(bs[i].freeMask, k) {
        GrainOf(bs, i, k);
      }
    }
    if Clear(bs[i].freeMask, o, n) {
      forall k: nat | 32 * i + o <= k < 32 * i + o + n ensures !Used(bs, k) {
        GrainOf(bs, i, k - 32 * i);
      }
    }
  }

  /** An allocation of `n` grains at `g` would be possible in the first `hlen + 1` blocks. */
  ghost predicate Fits(bs: seq<Block>, hlen: nat, g: nat, n: nat) {
    Shaped(hlen + 1, g, n) && RunFree(bs, g, n)
  }

  /** What fits: fewer grains than a block has if they are free and all in one block; more, if they are free,
      start a block, and end before the last block does, of which a part is needed even for none. */
  lemma SmallFits(bs: seq<Block>, hlen: nat, g: nat, n: nat)
    requires 1 <= n < 32
    ensures Fits(bs, hlen, g, n) <==> g / 32 == (g + n - 1) / 32 <= hlen && RunFree(bs, g, n)
  {
    hide RunFree;
  }

  lemma LargeFits(bs: seq<Block>, hlen: nat, g: nat, n: nat)
    requires n >= 32
    ensures Fits(bs, hlen, g, n) <==> g % 32 == 0 && (g + n) / 32 <= hlen && RunFree(bs, g, n)
  {
    hide RunFree;
  }

  /** There is nothing that fits below grain `top`. */
  ghost predicate NoFitBelow(bs: seq<Block>, hlen: nat, top: nat, n: nat) {
    forall g: nat {:trigger Fits(bs, hlen, g, n)} :: g < top ==> !Fits(bs, hlen, g, n)
  }

  /** The inner loop of `alloc`: the first place in a word for `n` bits. */
  method FindOffset(word: nat, n: nat) returns (r: Option<nat>)
    requires n < 32
    ensures r.None? ==> forall o: nat :: o + n <= 32 ==> !Clear(word, o, n)
    ensures r.Some? ==> r.value + n <= 32 && Clear(word, r.value, n) && forall o: nat :: o < r.value ==> !Clear(word, o, n)
  {
    hide And, Mask, Pow2, Clear;
    var offset := 0;
    while offset <= 32 - n
      invariant offset <= 33 - n
      invariant forall o: nat :: o < offset ==> !Clear(word, o, n)
    {
      ClearIsFree(word, offset, n);
      if And(word, Mask(n) * Pow2(offset)) == 0 {
        return Some(offset);
      }
      offset := offset + 1;
    }
    return None;
  }

  /** `alloc` of fewer grains than a block has: the first run that fits is claimed. */
  method AllocSmall(blocks: array<Block>, hlen: nat, n: nat) returns (r: Option<nat>)
    requires AllOk(blocks[..]) && hlen < blocks.Length && 1 <= n < 32
    modifies blocks
    ensures AllOk(blocks[..])
    ensures r.None? ==> blocks[..] == old(blocks[..]) && NoFitBelow(blocks[..], hlen, 32 * (hlen + 1), n)
    ensures r.Some? ==>
              && Fits(old(blocks[..]), hlen, r.value, n) && NoFitBelow(old(blocks[..]), hlen, r.value, n)
              && Changed(old(blocks[..]), blocks[..], r.value, n, true)
  {
    hide Clear, Used, RunFree, Claimed, BlockOk;
    ghost var bs := blocks[..];
    var i := 0;
    while i <= hlen
      invariant i <= hlen + 1 && blocks[..] == bs
      invariant NoFitBelow(bs, hlen, 32 * i, n)
    {
      if blocks[i].freeGrains >= n {
        var offset := FindOffset(blocks[i].freeMask, n);
        if offset.Some? {
          NoFitHere(bs, hlen, i, offset.value, n);
          RunInBlock(bs, i, offset.value, n);
          ClaimedField(blocks[i], offset.value, n);
          FieldChanged(bs, i, Claimed(blocks[i], offset.value, n), offset.value, n, true);
          blocks[i] := Claimed(blocks[i], offset.value, n);
          assert blocks[..] == bs[i := Claimed(bs[i], offset.value, n)];
          return Some(32 * i + offset.value);
        }
        NoFitHere(bs, hlen, i, 32, n);
      } else {
        TooFew(bs[i], n);
        NoFitHere(bs, hlen, i, 32, n);
      }
      i := i + 1;
    }
    return None;
  }

  /** A block with fewer free grains has no run of `n`. */
  lemma TooFew(b: Block, n: nat)
    requires BlockOk(b) && b.freeGrains < n
    ensures forall o: nat :: o + n <= 32 ==> !Clear(b.freeMask, o, n)
  {
    hide Clear, BlockOk;
    forall o: nat | o + n <= 32 ensures !Clear(b.freeMask, o, n) {
      if Clear(b.freeMask, o, n) {
        ClaimedField(b, o, n);
      }
    }
  }

  /** From the places tried in block `i` to the grains below. */
  lemma NoFitHere(bs: seq<Block>, hlen: nat, i: nat, top: nat, n: nat)
    requires i <= hlen < |bs| && 1 <= n < 32 && top <= 32 && NoFitBelow(bs, hlen, 32 * i, n)
    requires forall o: nat :: o < top && o + n <= 32 ==> !Clear(bs[i].freeMask, o, n)
    ensures NoFitBelow(bs, hlen, 32 * i + top, n)
  {
    hide Clear, RunFree;
    forall g: nat | g < 32 * i + top ensures !Fits(bs, hlen, g, n) {
      if g >= 32 * i && g % 32 + n <= 32 {
        RunInBlock(bs, i, g - 32 * i, n);
      }
    }
  }

  // ----- several blocks -----

  lemma {:induction false} ZeroIsClear(x: nat)
    requires x < Pow2(32)
    ensures x == 0 <==> Clear(x, 0, 32)
  {
    hide Bit, Pow2;
    if x == 0 {
      forall k: nat ensures !Bit(x, k) {
        ZeroBit(k);
      }
    } else {
      var k := SomeBit(x);
      if k >= 32 {
        HighBit(x, 32, k);
      }
    }
  }

  /** A word of zeros is a block of free grains. */
  lemma ZeroIsFree(bs: seq<Block>, i: nat)
    requires i < |bs| && BlockOk(bs[i])
    ensures bs[i].freeMask == 0 <==> RunFree(bs, 32 * i, 32)
  {
    hide Clear, RunFree, Pow2, Count;
    ZeroIsClear(bs[i].freeMask);
    RunInBlock(bs, i, 0, 32);
  }

  lemma RunJoin(bs: seq<Block>, g: nat, n: nat, m: nat)
    ensures RunFree(bs, g, n + m) <==> RunFree(bs, g, n) && RunFree(bs, g + n, m)
  {
    hide Used;
  }

  lemma WholeBlock()
    ensures BlockOk(Block(0, Mask(32))) && BlockOk(Block(32, 0))
    ensures forall k: nat :: k < 32 ==> Bit(Mask(32), k) && !Bit(0, k)
  {
    hide Bit;
    CountMask(32);
    forall k: nat | k < 32 ensures Bit(Mask(32), k) && !Bit(0, k) {
      MaskBit(32, k);
      ZeroBit(k);
    }
    assert Pow2(32) >= 1;
  }

  lemma ChangedFront(bs: seq<Block>, cs: seq<Block>, ds: seq<Block>, g: nat, n: nat, m: nat, taken: bool)
    requires Changed(bs, cs, g + m, n, taken) && Changed(cs, ds, g, m, taken)
    ensures Changed(bs, ds, g, m + n, taken)
  {
    hide Used;
  }

  lemma NothingChanged(bs: seq<Block>, g: nat, taken: bool)
    ensures Changed(bs, bs, g, 0, taken)
  {
    hide Used;
  }

  /** The loop of `alloc` that claims the `count` blocks before block `i`. */
  method ClaimBlocks(blocks: array<Block>, i: nat, count: nat)
    requires count <= i < blocks.Length && AllOk(blocks[..])
    modifies blocks
    ensures AllOk(blocks[..]) && Changed(old(blocks[..]), blocks[..], 32 * (i - count), 32 * count, true)
    ensures blocks[i] == old(blocks[i])
  {
    hide Changed, BlockOk;
    ghost var bs := blocks[..];
    var j := 1;
    NothingChanged(bs, 32 * i, true);
    while j <= count
      invariant 1 <= j <= count + 1 && AllOk(blocks[..]) && blocks[i] == bs[i]
      invariant Changed(bs, blocks[..], 32 * (i - (j - 1)), 32 * (j - 1), true)
    {
      ghost var cs := blocks[..];
      WholeBlock();
      blocks[i - j] := Block(0, Mask(32));
      FieldChanged(cs, i - j, Block(0, Mask(32)), 0, 32, true);
      assert blocks[..] == cs[i - j := Block(0, Mask(32))];
      ChangedFront(bs, cs, blocks[..], 32 * (i - j), 32 * (j - 1), 32, true);
      j := j + 1;
    }
  }

  /** Before block `i` there are `count` free blocks, and, unless that is enough, a used one before. */
  ghost predicate Counted(bs: seq<Block>, i: nat, count: nat, needed: nat) {
    && count <= needed && count <= i <= |bs|
    && RunFree(bs, 32 * (i - count), 32 * count)
    && (count < needed && count < i ==> bs[i - count - 1].freeMask != 0)
  }

  /** Whether `needed` free blocks end before block `i`. */
  lemma CountedExactly(bs: seq<Block>, i: nat, count: nat, needed: nat)
    requires AllOk(bs) && Counted(bs, i, count, needed) && needed <= i
    ensures RunFree(bs, 32 * (i - needed), 32 * needed) <==> count == needed
  {
    hide BlockOk;
    if count < needed {
      var u := i - count - 1;
      ZeroIsFree(bs, u);
      RunPart(bs, 32 * (i - needed), 32 * needed, 32 * u, 32);
    }
  }

  lemma RunPart(bs: seq<Block>, g: nat, n: nat, h: nat, m: nat)
    requires g <= h && h + m <= g + n
    ensures RunFree(bs, g, n) ==> RunFree(bs, h, m)
  {
    hide Used;
  }

  /** A run of whole blocks and a part of the next. */
  lemma FitsAt(bs: seq<Block>, hlen: nat, i: nat, n: nat)
    requires n >= 32 && n / 32 <= i <= hlen < |bs|
    ensures Fits(bs, hlen, 32 * (i - n / 32), n) <==>
            RunFree(bs, 32 * (i - n / 32), 32 * (n / 32)) && Clear(bs[i].freeMask, 0, n % 32)
  {
    hide Clear, RunFree;
    RunJoin(bs, 32 * (i - n / 32), 32 * (n / 32), n % 32);
    RunInBlock(bs, i, 0, n % 32);
  }

  /** One more block has been looked at. */
  lemma NoFitEnding(bs: seq<Block>, hlen: nat, i: nat, n: nat)
    requires n >= 32 && i <= hlen < |bs|
    requires NoFitBelow(bs, hlen, if i >= n / 32 then 32 * (i - n / 32) else 0, n)
    requires i >= n / 32 ==> !Fits(bs, hlen, 32 * (i - n / 32), n)
    ensures NoFitBelow(bs, hlen, if i + 1 >= n / 32 then 32 * (i + 1 - n / 32) else 0, n)
  {
    hide RunFree;
    if i + 1 >= n / 32 {
      forall g: nat | g < 32 * (i + 1 - n / 32) ensures !Fits(bs, hlen, g, n) {
        if i >= n / 32 && g >= 32 * (i - n / 32) && g % 32 == 0 {
          assert g == 32 * (i - n / 32);
        }
      }
    }
  }

  /** The step of the count. */
  lemma CountOn(bs: seq<Block>, i: nat, count: nat, needed: nat)
    requires AllOk(bs) && i < |bs| && Counted(bs, i, count, needed) && needed > 0
    ensures count < needed && bs[i].freeMask == 0 ==> Counted(bs, i + 1, count + 1, needed)
    ensures bs[i].freeMask != 0 ==> Counted(bs, i + 1, 0, needed)
  {
    hide RunFree, BlockOk;
    ZeroIsFree(bs, i);
    RunJoin(bs, 32 * (i - count), 32 * count, 32);
    RunNone(bs, 32 * (i + 1));
  }

  lemma RunNone(bs: seq<Block>, g: nat)
    ensures RunFree(bs, g, 0)
  {
  }

  /** `alloc` of at least a block: so many free blocks in a row, and the rest from the start of the next,
      which must be there even when nothing of it is needed. */
  method AllocLarge(blocks: array<Block>, hlen: nat, n: nat) returns (r: Option<nat>)
    requires AllOk(blocks[..]) && hlen < blocks.Length && n >= 32
    modifies blocks
    ensures AllOk(blocks[..])
    ensures r.None? ==> blocks[..] == old(blocks[..]) && NoFitBelow(blocks[..], hlen, 32 * (hlen + 1), n)
    ensures r.Some? ==>
              && Fits(old(blocks[..]), hlen, r.value, n) && NoFitBelow(old(blocks[..]), hlen, r.value, n)
              && Changed(old(blocks[..]), blocks[..], r.value, n, true)
  {
    hide Clear, RunFree, BlockOk, Counted, NoFitBelow, And, Mask, Fits;
    ghost var bs := blocks[..];
    var currFreeBlocks := 0;
    var blocksNeeded := n / 32;
    var grains := n % 32;
    CountNothing(bs, blocksNeeded);
    NoFitAtAll(bs, hlen, n);
    var i := 0;
    while i <= hlen
      invariant i <= hlen + 1 && blocks[..] == bs && currFreeBlocks <= blocksNeeded && currFreeBlocks <= i
      invariant Counted(bs, i, currFreeBlocks, blocksNeeded)
      invariant NoFitBelow(bs, hlen, if i >= blocksNeeded then 32 * (i - blocksNeeded) else 0, n)
    {
      CountOn(bs, i, currFreeBlocks, blocksNeeded);
      if i >= blocksNeeded {
        CountedExactly(bs, i, currFreeBlocks, blocksNeeded);
        FitsAt(bs, hlen, i, n);
      }
      if currFreeBlocks < blocksNeeded {
        NoFitEnding(bs, hlen, i, n);
        if blocks[i].freeMask == 0 {
          currFreeBlocks := currFreeBlocks + 1;
        } else {
          currFreeBlocks := 0;
        }
      } else {
        PartFree(blocks[i].freeMask, grains);
        if And(blocks[i].freeMask, Mask(grains)) == 0 {
          ClaimRun(blocks, i, blocksNeeded, grains);
          return Some(32 * (i - currFreeBlocks));
        } else {
          NoFitEnding(bs, hlen, i, n);
          currFreeBlocks := 0;
        }
      }
      i := i + 1;
    }
    NoFitLeft(bs, hlen, n);
    return None;
  }

  lemma CountNothing(bs: seq<Block>, needed: nat)
    ensures Counted(bs, 0, 0, needed)
  {
  }

  lemma NoFitAtAll(bs: seq<Block>, hlen: nat, n: nat)
    ensures NoFitBelow(bs, hlen, 0, n)
  {
  }

  /** Above the last place tried there is no room in the heap. */
  lemma NoFitLeft(bs: seq<Block>, hlen: nat, n: nat)
    requires n >= 32 && NoFitBelow(bs, hlen, if hlen + 1 >= n / 32 then 32 * (hlen + 1 - n / 32) else 0, n)
    ensures NoFitBelow(bs, hlen, 32 * (hlen + 1), n)
  {
    hide RunFree;
    forall g: nat | g < 32 * (hlen + 1) ensures !Fits(bs, hlen, g, n) {
    }
  }

  /** The test on the last, partly needed block. */
  lemma {:induction false} PartFree(x: nat, n: nat)
    ensures And(x, Mask(n)) == 0 <==> Clear(x, 0, n)
    ensures And(x, Mask(n)) != 0 ==> x != 0
  {
    hide Clear, And, Mask;
    ClearIsFree(x, 0, n);
    assert Mask(n) * Pow2(0) == Mask(n);
    AndZero(Mask(n));
  }

  /** The blocks and the part of the next are claimed. */
  method ClaimRun(blocks: array<Block>, i: nat, count: nat, n: nat)
    requires AllOk(blocks[..]) && count <= i < blocks.Length && n < 32 && Clear(blocks[i].freeMask, 0, n)
    modifies blocks
    ensures AllOk(blocks[..]) && Changed(old(blocks[..]), blocks[..], 32 * (i - count), 32 * count + n, true)
  {
    hide Clear, BlockOk, Changed, Claimed;
    ghost var bs := blocks[..];
    ClaimedField(blocks[i], 0, n);
    ClaimBlocks(blocks, i, count);
    ghost var cs := blocks[..];
    blocks[i] := Claimed(blocks[i], 0, n);
    FieldChanged(cs, i, Claimed(cs[i], 0, n), 0, n, true);
    assert blocks[..] == cs[i := Claimed(cs[i], 0, n)];
    ChangedMore(bs, cs, blocks[..], 32 * (i - count), 32 * count, n, true);
  }

  // ----- giving back -----

  lemma RunSet(bs: seq<Block>, i: nat, o: nat, n: nat)
    requires i < |bs| && o + n <= 32 && forall k: nat :: 32 * i + o <= k < 32 * i + o + n ==> Used(bs, k)
    ensures AllSet(bs[i].freeMask, o, n)
  {
    hide Bit;
    forall k: nat | o <= k < o + n ensures Bit(bs[i].freeMask, k) {
      GrainOf(bs, i, k);
    }
  }

  /** One field of one block is cleared. */
  method ReleaseField(blocks: array<Block>, i: nat, o: nat, n: nat)
    requires AllOk(blocks[..]) && i < blocks.Length && o + n <= 32
    requires forall k: nat :: 32 * i + o <= k < 32 * i + o + n ==> Used(blocks[..], k)
    modifies blocks
    ensures AllOk(blocks[..]) && Changed(old(blocks[..]), blocks[..], 32 * i + o, n, false)
  {
    hide BlockOk, Changed, Released, AllSet, Used;
    ghost var bs := blocks[..];
    RunSet(bs, i, o, n);
    ReleasedField(blocks[i], o, n);
    FieldChanged(bs, i, Released(blocks[i], o, n), o, n, false);
    blocks[i] := Released(blocks[i], o, n);
    assert blocks[..] == bs[i := Released(bs[i], o, n)];
  }

  /** The loop of `free_mem` over the whole blocks of an allocation. */
  method FreeBlocks(blocks: array<Block>, idx: nat, count: nat)
    requires AllOk(blocks[..]) && idx + count <= blocks.Length
    modifies blocks
    ensures AllOk(blocks[..]) && Changed(old(blocks[..]), blocks[..], 32 * idx, 32 * count, false)
  {
    hide Changed, BlockOk;
    ghost var bs := blocks[..];
    NothingChanged(bs, 32 * idx, false);
    var i := 0;
    while i < count
      invariant i <= count && AllOk(blocks[..]) && Changed(bs, blocks[..], 32 * idx, 32 * i, false)
    {
      ghost var cs := blocks[..];
      WholeBlock();
      blocks[idx + i] := Block(32, 0);
      FieldChanged(cs, idx + i, Block(32, 0), 0, 32, false);
      assert blocks[..] == cs[idx + i := Block(32, 0)];
      ChangedMore(bs, cs, blocks[..], 32 * idx, 32 * i, 32, false);
      i := i + 1;
    }
  }

  // ----- the heap -----

  const HEADER_BYTES := 4

  /** A heap: its blocks, where its memory starts, the bytes in a grain, and the headers in its memory. */
  class Heap {
    const blocks: array<Block>
    const base: nat
    const grain: nat
    var headers: map<nat, nat>
    ghost var live: map<nat, nat>

    ghost predicate Valid()
      reads this, blocks
    {
      && grain > 0 && AllOk(blocks[..]) && LiveOk(blocks[..], live)
      && forall g :: g in live ==> Address(g) in headers && headers[Address(g)] == live[g]
    }

    /** Where grain `g` is in memory. */
    function Address(g: nat): nat {
      base + g * grain
    }

    /** `to_addr`. */
    function ToAddr(idx: nat, offset: nat): nat {
      base + idx * (32 * grain) + offset * grain
    }

    lemma ToAddrIs(idx: nat, offset: nat)
      ensures ToAddr(idx, offset) == Address(32 * idx + offset)
    {
      assert idx * (32 * grain) == (32 * idx) * grain;
      assert (32 * idx + offset) * grain == (32 * idx) * grain + offset * grain;
    }

    /** `addr_to_block`. */
    function AddrToBlock(addr: nat): nat
      requires grain > 0 && addr >= base
    {
      Div(addr - base, 32 * grain)
    }

    /** `addr_to_grain_offset`. */
    function AddrToGrainOffset(addr: nat): nat
      requires grain > 0 && addr >= base
    {
      Div(Mod(addr - base, 32 * grain), grain)
    }

    /** Block and offset are found again from an address. */
    lemma AddressBack(g: nat)
      requires grain > 0
      ensures AddrToBlock(Address(g)) == g / 32 && AddrToGrainOffset(Address(g)) == g % 32
    {
      ToAddrIs(g / 32, g % 32);
      AddressParts(g / 32, g % 32, grain);
    }

    lemma DistinctAddresses(g: nat, h: nat)
      requires grain > 0 && Address(g) == Address(h)
      ensures g == h
    {
      AddressBack(g);
      AddressBack(h);
    }

    /** `init_heap`. */
    constructor (size: nat, base: nat, grain: nat)
      requires grain > 0
      ensures Valid() && live == map[] && fresh(blocks) && blocks.Length == size
      ensures this.base == base && this.grain == grain
    {
      this.base, this.grain := base, grain;
      blocks := new Block[size](_ => Block(32, 0));
      headers := map[];
      live := map[];
      new;
      EmptyHeap(blocks[..]);
    }

    /** `alloc`: the address behind the header of a new allocation of exactly `n` grains that were free,
        at the first place where they fit; none exactly when they fit nowhere. */
    method Alloc(hlen: nat, n: nat) returns (r: Option<nat>)
      requires Valid() && hlen < blocks.Length && n >= 1
      modifies this, blocks
      ensures Valid()
      ensures r.None? <==> forall g: nat {:trigger Fits(old(blocks[..]), hlen, g, n)} :: !Fits(old(blocks[..]), hlen, g, n)
      ensures r.None? ==> live == old(live) && blocks[..] == old(blocks[..])
      ensures r.Some? ==>
                exists g: nat ::
                  && r.value == Address(g) + HEADER_BYTES && g !in old(live) && live == old(live)[g := n]
                  && Fits(old(blocks[..]), hlen, g, n) && NoFitBelow(old(blocks[..]), hlen, g, n)
    {
      hide AllOk, LiveOk, Changed, RunFree, Shaped;
      ghost var bs := blocks[..];
      var place: Option<nat>;
      if n < 32 {
        place := AllocSmall(blocks, hlen, n);
      } else {
        place := AllocLarge(blocks, hlen, n);
      }
      if place.None? {
        NoFitAbove(bs, hlen, n);
        return None;
      }
      var g := place.value;
      FitsInside(bs, hlen, g, n);
      LiveAfterAlloc(bs, blocks[..], live, g, n);
      var header := ToAddr(g / 32, g % 32);
      ToAddrIs(g / 32, g % 32);
      NewHeader(g);
      headers := headers[header := n];
      live := live[g := n];
      return Some(header + HEADER_BYTES);
    }

    lemma NewHeader(g: nat)
      requires grain > 0
      ensures forall h: nat :: h != g ==> Address(h) != Address(g)
    {
      forall h: nat | h != g ensures Address(h) != Address(g) {
        if Address(h) == Address(g) {
          DistinctAddresses(g, h);
        }
      }
    }

    /** `free_mem` of a live allocation whose header is intact. */
    method FreeMem(mem: nat, ghost g: nat)
      requires Valid() && g in live && mem == Address(g) + HEADER_BYTES
      modifies this`live, blocks
      ensures Valid() && live == old(live) - {g}
    {
      hide AllOk, Changed, Used, LiveOk;
      ghost var bs := blocks[..];
      var header := mem - HEADER_BYTES;
      AddressBack(g);
      LiveRun(bs, live, g);
      var grains := headers[header];
      var idx := AddrToBlock(header);
      if grains < 32 {
        ReleaseField(blocks, idx, AddrToGrainOffset(header), grains);
      } else {
        var blocksToFree := grains / 32;
        grains := grains % 32;
        FreeBlocks(blocks, idx, blocksToFree);
        ghost var cs := blocks[..];
        StillUsed(bs, cs, g, 32 * blocksToFree, grains);
        ReleaseField(blocks, idx + blocksToFree, 0, grains);
        ChangedMore(bs, cs, blocks[..], g, 32 * blocksToFree, grains, false);
      }
      LiveAfterFree(bs, blocks[..], live, g);
      live := live - {g};
    }

    /** `alloc` and then `free_mem` of its result: every block is as before. */
    method AllocThenFree(hlen: nat, n: nat) returns (r: Option<nat>)
      requires Valid() && hlen < blocks.Length && n >= 1
      modifies this, blocks
      ensures Valid() && live == old(live) && blocks[..] == old(blocks[..])
    {
      hide AllOk, LiveOk;
      ghost var bs := blocks[..];
      r := Alloc(hlen, n);
      if r.Some? {
        ghost var g: nat :| r.value == Address(g) + HEADER_BYTES && g !in old(live) && live == old(live)[g := n];
        FreeMem(r.value, g);
        assert live == old(live);
        BlocksFromLive(bs, blocks[..], live);
      }
    }
  }

  function Div(a: nat, d: nat): (q: nat)
    requires d > 0
  {
    a / d
  }

  function Mod(a: nat, d: nat): (r: nat)
    requires d > 0
  {
    a % d
  }

  lemma AddressParts(i: nat, o: nat, grain: nat)
    requires grain > 0 && o < 32
    ensures var a := i * (32 * grain) + o * grain;
            Div(a, 32 * grain) == i && Div(Mod(a, 32 * grain), grain) == o
  {
    var d, r := 32 * grain, o * grain;
    LessTimes(o, grain);
    assert i * d == d * i && r == grain * o + 0;
    QuotientUnique(d * i + r, d, i, r);
    DivisionUnique(d * i + r, d, i, r);
    QuotientUnique(r, grain, o, 0);
  }

  lemma LessTimes(o: nat, grain: nat)
    requires grain > 0 && o < 32
    ensures o * grain < 32 * grain
  {
    assert (32 - o) * grain == 32 * grain - o * grain;
    assert (32 - o) * grain >= grain;
  }

  lemma EmptyHeap(bs: seq<Block>)
    requires forall i :: 0 <= i < |bs| ==> bs[i] == Block(32, 0)
    ensures AllOk(bs) && LiveOk(bs, map[])
  {
    hide Bit, BlockOk, Mask, Pow2, Count;
    WholeBlock();
    forall g: nat ensures Used(bs, g) <==> Covered(map[], g) {
      ZeroBit(g % 32);
    }
  }

  lemma NoFitAbove(bs: seq<Block>, hlen: nat, n: nat)
    requires NoFitBelow(bs, hlen, 32 * (hlen + 1), n)
    ensures forall g: nat {:trigger Fits(bs, hlen, g, n)} :: !Fits(bs, hlen, g, n)
  {
    hide RunFree;
    forall g: nat ensures !Fits(bs, hlen, g, n) {
      if g >= 32 * (hlen + 1) {
        assert !Shaped(hlen + 1, g, n);
      }
    }
  }

  lemma FitsInside(bs: seq<Block>, hlen: nat, g: nat, n: nat)
    requires Fits(bs, hlen, g, n) && hlen < |bs|
    ensures Shaped(|bs|, g, n) && RunFree(bs, g, n)
  {
  }

  /** The grains of a live allocation are used, and lie as it was placed. */
  lemma LiveRun(bs: seq<Block>, live: map<nat, nat>, g: nat)
    requires LiveOk(bs, live) && g in live
    ensures Shaped(|bs|, g, live[g]) && forall k: nat :: g <= k < g + live[g] ==> Used(bs, k)
  {
    hide Used;
    forall k: nat | g <= k < g + live[g] ensures Used(bs, k) {
      assert Covered(live, k);
    }
  }

  lemma StillUsed(bs: seq<Block>, cs: seq<Block>, g: nat, n: nat, m: nat)
    requires Changed(bs, cs, g, n, false) && forall k: nat :: g <= k < g + n + m ==> Used(bs, k)
    ensures forall k: nat :: g + n <= k < g + n + m ==> Used(cs, k)
  {
    hide Used;
  }
}
