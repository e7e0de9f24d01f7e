/** The buddy allocator of mm/buddy_mm_*.c, as it updates list heads and node headers in place. */
module BuddyAllocator {
  import opened Wrappers
  import opened Bits
  import opened BuddyHeap
  import opened BuddyLists

  /** Free nodes `f`, live blocks `l` and a block `n` that is being returned to the free lists:
      only `n` may still have its buddy free. */
  ghost predicate Pending(h: Heap, f: set<Block>, l: set<Block>, n: Block) {
    && h.Ok() && f !! l && n !in l
    && Tiled(h, f + {n} + l)
    && Coalesced(h, f - {n})
  }

  /** A block `n` has been taken off the free nodes `f` and is not live yet. */
  ghost predicate Taken(h: Heap, f: set<Block>, l: set<Block>, n: Block) {
    && h.Ok() && f !! l && n !in f && n !in l
    && Tiled(h, f + {n} + l)
    && Coalesced(h, f)
  }

  /** No other block starts where the pending one does. */
  lemma PendingStarts(h: Heap, f: set<Block>, l: set<Block>, p: Block)
    requires Pending(h, f + {p}, l, p)
    ensures h.Ok() && Window(h, p) && forall b :: b in f + l && b.addr == p.addr ==> b == p
  {
    forall b | b in f + l && b.addr == p.addr ensures b == p {
      SameStart(h, f + {p} + {p} + l, b, p);
    }
  }

  lemma MergePending(h: Heap, f: set<Block>, l: set<Block>, n: Block)
    requires Pending(h, f, l, n) && n.order < h.maxOrder && n.Buddy() in f
    ensures n.Parent() !in f && n.Parent() !in l
    ensures Pending(h, f - {n.Buddy()} - {n} + {n.Parent()}, l, n.Parent())
  {
    var s := f + {n} + l;
    var p := n.Parent();
    ParentOf(h, n);
    MergeKeepsTiling(h, s, n);
    assert p !in s by {
      if p in s {
        assert false;
      }
    }
    var f' := f - {n.Buddy()} - {n} + {p};
    assert f' + {p} + l == s - {n, n.Buddy()} + {p};
    assert f' - {p} == f - {n} - {n.Buddy()};
  }

  lemma SettlePending(h: Heap, f: set<Block>, l: set<Block>, n: Block)
    requires Pending(h, f, l, n) && (n.order < h.maxOrder ==> n.Buddy() !in f)
    ensures Settled(h, f + {n}, l)
  {
    var g := f + {n};
    forall b | b in g && b.order < h.maxOrder ensures b.Buddy() !in g {
      ParentOf(h, b);
    }
  }

  /** A pending block of maximum order is the whole heap. */
  lemma PendingWhole(h: Heap, f: set<Block>, l: set<Block>, n: Block)
    requires Pending(h, f, l, n) && n.order == h.maxOrder
    ensures l == {} && f <= {n} && n == h.Whole()
  {
    var s := f + {n} + l;
    assert n in s && Window(h, n);
    forall b | b in s ensures b == n {
      assert Window(h, b) && !Apart(b, n);
    }
  }

  lemma FreeMakesPending(h: Heap, f: set<Block>, l: set<Block>, n: Block)
    requires Settled(h, f, l) && n in l
    ensures Pending(h, f, l - {n}, n)
  {
    assert f + {n} + (l - {n}) == f + l;
  }

  /** Splitting the block in hand frees its right half and keeps its left half in hand. */
  lemma SplitTaken(h: Heap, f: set<Block>, l: set<Block>, n: Block)
    requires Taken(h, f, l, n) && n.order > h.minOrder
    ensures Taken(h, f + {n.Right()}, l, n.Left())
    ensures Window(h, n.Right()) && n.Right().addr > n.addr
    ensures forall b :: b in f + l ==> b.addr != n.addr && b.addr != n.Right().addr
  {
    var s := f + {n} + l;
    assert Window(h, n);
    HalvesOf(h, n);
    SplitKeepsTiling(h, s, n);
    forall b | b in f + l ensures b != n.Left() && b != n.Right() && b.addr != n.addr && b.addr != n.Right().addr {
      assert Apart(b, n) && Window(h, b);
    }
    var f' := f + {n.Right()};
    assert f' + {n.Left()} + l == s - {n} + {n.Left(), n.Right()};
    forall b | b in f' && b.order < h.maxOrder ensures b.Buddy() !in f' {
      ParentOf(h, b);
    }
  }

  lemma HeadedAfterSplit(m: Memory, m': Memory, f: set<Block>, l: set<Block>, n: Block)
    requires n.order > 0 && Headed(m, f + {n} + l) && m.Keys <= m'.Keys && n.Right().addr in m'
    requires forall b :: b in f + l ==> b.addr != n.addr && b.addr != n.Right().addr
    requires forall a :: a in m && a != n.addr && a != n.Right().addr ==> m'[a].magic == m[a].magic && m'[a].order == m[a].order
    requires m'[n.addr].magic == m'[n.Right().addr].magic == MM_MAGIC
    requires m'[n.addr].order == m'[n.Right().addr].order == n.order - 1
    ensures Headed(m', f + {n.Right()} + {n.Left()} + l)
  {
  }

  /** There is memory for a node at every 8-aligned address of the heap. */
  ghost predicate Addressed(h: Heap, mem: Memory) {
    forall a {:trigger Aligned(a, 3)} :: h.base <= a < h.End() && Aligned(a, 3) ==> a in mem
  }

  lemma Addressable(h: Heap, mem: Memory, b: Block)
    requires h.Ok() && Window(h, b) && Addressed(h, mem)
    ensures b.addr in mem && b.addr != NULL
  {
    AlignedWeaken(b.addr, 3, b.order);
  }

  /** An address where a block of the tiling starts is on a list only as that block. */
  lemma OnListAs(h: Heap, s: set<Block>, free: seq<seq<nat>>, n: Block)
    requires Tiled(h, s) && FreeSet(free) <= s && n in s
    ensures forall k :: 0 <= k < |free| && n.addr in free[k] ==> k == n.order && n in FreeSet(free)
    ensures n.order < |free| ==> (n.addr in free[n.order] <==> n in FreeSet(free))
  {
    forall k | 0 <= k < |free| && n.addr in free[k] ensures k == n.order && n in FreeSet(free) {
      assert Block(n.addr, k) in FreeSet(free);
      SameStart(h, s, n, Block(n.addr, k));
    }
  }

  /** With at most the node `n` of maximum order free, writing its link and its list head leaves
      exactly that node on the lists. */
  lemma OnlyWhole(h: Heap, mem: Memory, heads: seq<nat>, free: seq<seq<nat>>, n: Block)
    requires Linked(mem, heads, free) && FreeSet(free) <= {n} && n.order == h.maxOrder && |free| == h.maxOrder + 1
    requires n.addr in mem && n.addr != NULL && mem[n.addr].order == n.order
    ensures Linked(mem[n.addr := mem[n.addr].(next := NULL)], heads[n.order := n.addr], Single(h, n.addr))
  {
    var m := mem[n.addr := mem[n.addr].(next := NULL)];
    forall k | 0 <= k < h.maxOrder ensures free[k] == [] && Chain(m, heads[k], []) {
      assert forall a :: a in free[k] ==> Block(a, k) in FreeSet(free);
      EmptyIfNoMember(free[k]);
      assert Chain(mem, heads[k], free[k]);
    }
  }

  lemma EmptyIfNoMember(s: seq<nat>)
    ensures s == [] || exists a :: a in s
  {
    assert s == [] || s[0] in s;
  }

  function Single(h: Heap, a: nat): seq<seq<nat>> {
    seq(h.maxOrder + 1, k => if k == h.maxOrder then [a] else [])
  }

  /** The search loop of `buddy_merge`: where node and buddy sit on the list `s` of their order. */
  method FindPair(mem: Memory, head: nat, ghost s: seq<nat>, node: nat, buddyNode: nat)
    returns (nodeCurr: nat, nodePrev: nat, buddyCurr: nat, buddyPrev: nat, ghost at: nat)
    requires Chain(mem, head, s) && node != buddyNode && (node in s ==> s[0] == node)
    ensures nodePrev == NULL
    ensures nodeCurr == if node in s then node else NULL
    ensures buddyCurr == if buddyNode in s then buddyNode else NULL
    ensures buddyCurr != NULL ==> at < |s| && s[at] == buddyNode && buddyPrev == Before(s, at)
  {
    ghost var onList := node in s;
    var curr: nat, prev: nat := head, NULL;
    var found := 0;
    nodeCurr, nodePrev, buddyCurr, buddyPrev := NULL, NULL, NULL, NULL;
    ghost var i := 0;
    at := 0;
    while found < 2 && curr != NULL
      invariant i <= |s| && curr == At(s, i) && prev == Before(s, i)
      invariant found == (if nodeCurr == NULL then 0 else 1) + (if buddyCurr == NULL then 0 else 1)
      invariant nodeCurr == (if i > 0 && onList then node else NULL) && nodePrev == NULL
      invariant buddyCurr == NULL ==> forall j :: 0 <= j < i ==> s[j] != buddyNode
      invariant buddyCurr != NULL ==> buddyCurr == buddyNode && at < i && s[at] == buddyNode && buddyPrev == Before(s, at)
      decreases |s| - i
    {
      assert i > 0 ==> s[0] != s[i];
      assert buddyCurr != NULL ==> s[at] != s[i];
      if curr == node {
        nodeCurr, nodePrev := curr, prev;
        found := found + 1;
      } else if curr == buddyNode {
        buddyCurr, buddyPrev := curr, prev;
        at := i;
        found := found + 1;
      }
      assert LinkAt(mem, s, i);
      prev := curr;
      curr := mem[curr].next;
      i := i + 1;
    }
  }

  class Buddy {
    const heap: Heap
    /** One head per order, indexed by the order itself. */
    const list: array<nat>
    var mem: Memory
    /** What the lists hold, by order. */
    ghost var free: seq<seq<nat>>
    /** The blocks handed out and not yet freed. */
    ghost var live: set<Block>

    ghost predicate Shaped()
      reads this, list
    {
      && heap.Ok() && list.Length == heap.maxOrder + 1
      && Linked(mem, list[..], free)
      && Addressed(heap, mem)
    }

    ghost predicate Valid()
      reads this, list
    {
      && Shaped()
      && Headed(mem, FreeSet(free) + live)
      && Settled(heap, FreeSet(free), live)
    }

    /** The state in which `buddy_merge` is entered with `node`: all is well except that the node's
        buddy may be free; the node is on no list, or it is the head of its own. */
    ghost predicate ReadyToMerge(node: nat)
      reads this, list
    {
      && Shaped() && node in mem
      && var n := Block(node, mem[node].order);
      && Headed(mem, FreeSet(free) + {n} + live)
      && Pending(heap, FreeSet(free), live, n)
      && (n in FreeSet(free) ==> free[n.order] != [] && free[n.order][0] == node)
    }

    /** `init_buddy`: one free block of maximum order. */
    constructor (h: Heap, m: Memory)
      requires h.Ok()
      requires Addressed(h, m)
      ensures Valid() && heap == h && live == {} && fresh(list)
    {
      heap := h;
      list := new nat[h.maxOrder + 1];
      mem := m[h.base := HeapNode(MM_MAGIC, h.maxOrder, NULL)];
      free := Single(h, h.base);
      live := {};
      new;
      var i := 0;
      while i < heap.maxOrder
        invariant 0 <= i <= heap.maxOrder
        invariant forall k :: 0 <= k < i ==> list[k] == NULL
        modifies list
      {
        list[i] := NULL;
        i := i + 1;
      }
      list[heap.maxOrder] := heap.base;
      InitialHeap(heap);
      assert forall k :: 0 <= k <= heap.maxOrder ==> Chain(mem, list[k], free[k]);
      assert FreeSet(free) + live == {heap.Whole()};
    }

    // ----- list handling -----

    /** Puts a node at the front of the list of order `k`. */
    method Push(k: nat, node: nat)
      requires Shaped() && k <= heap.maxOrder && node in mem && node != NULL && mem[node].order == k
      requires forall j :: 0 <= j < |free| ==> node !in free[j]
      modifies this`mem, this`free, list
      ensures Shaped() && SameHeaders(old(mem), mem)
      ensures free == old(free)[k := [node] + old(free)[k]]
      ensures FreeSet(free) == old(FreeSet(free)) + {Block(node, k)}
    {
      PushLists(mem, list[..], free, k, node);
      mem := mem[node := mem[node].(next := list[k])];
      list[k] := node;
      free := free[k := [node] + free[k]];
      assert list[..] == old(list[..])[k := node];
    }

    /** Takes `curr`, the element at `at` of the list of order `k`, off that list, given its
        predecessor on it. */
    method Unlink(k: nat, curr: nat, prev: nat, ghost at: nat)
      requires Shaped() && k <= heap.maxOrder && at < |free[k]| && curr == free[k][at]
      requires prev == Before(free[k], at)
      modifies this`mem, this`free, list
      ensures Shaped() && SameHeaders(old(mem), mem)
      ensures free == old(free)[k := RemovedAt(old(free)[k], at)]
      ensures FreeSet(free) == old(FreeSet(free)) - {Block(curr, k)}
    {
      assert Chain(mem, list[k], free[k]);
      UnlinkLists(mem, list[..], free, k, at);
      if prev == NULL {
        list[k] := mem[curr].next;
        assert list[..] == old(list[..])[k := old(mem)[curr].next];
      } else {
        mem := mem[prev := mem[prev].(next := mem[curr].next)];
      }
      free := free[k := RemovedAt(free[k], at)];
    }

    // ----- free -----

    /** The case of `buddy_merge` for a node of maximum order. */
    method ReturnWhole(node: nat)
      requires ReadyToMerge(node) && mem[node].order == heap.maxOrder
      modifies this`mem, this`free, list
      ensures Valid()
    {
      ghost var n := Block(node, heap.maxOrder);
      PendingWhole(heap, FreeSet(free), live, n);
      list[heap.maxOrder] := node;
      mem := mem[node := mem[node].(next := NULL)];
      OnlyWhole(heap, old(mem), old(list[..]), free, n);
      assert list[..] == old(list[..])[heap.maxOrder := node];
      free := Single(heap, node);
      InitialHeap(heap);
      assert FreeSet(free) + live == {n};
    }

    /** Takes the buddy and, if it is listed, the node off the list of their order. */
    method UnlinkPair(order: nat, nodeCurr: nat, nodePrev: nat, buddyCurr: nat, buddyPrev: nat, ghost start: nat, ghost at: nat)
      requires Shaped() && order <= heap.maxOrder && start != NULL && start != buddyCurr && nodePrev == NULL
      requires nodeCurr == if start in free[order] then start else NULL
      requires nodeCurr != NULL ==> free[order][0] == start
      requires at < |free[order]| && free[order][at] == buddyCurr
      requires buddyPrev == Before(free[order], at)
      modifies this`mem, this`free, list
      ensures Shaped() && SameHeaders(old(mem), mem)
      ensures FreeSet(free) == old(FreeSet(free)) - {Block(buddyCurr, order)} - {Block(start, order)}
    {
      assert nodeCurr == NULL ==> Block(start, order) !in FreeSet(free);
      Unlink(order, buddyCurr, buddyPrev, at);
      if nodeCurr != NULL {
        Unlink(order, nodeCurr, nodePrev, 0);
      }
    }

    /** The case of `buddy_merge` where the buddy is free: take both off their list and put their
        parent on the next one. The panic on a buddy of another order cannot fire. */
    method Join(start: nat, order: nat, nodeCurr: nat, nodePrev: nat, buddyCurr: nat, buddyPrev: nat, ghost at: nat)
      returns (node: nat)
      requires ReadyToMerge(start) && order == mem[start].order < heap.maxOrder
      requires buddyCurr == Block(start, order).Buddy().addr && nodePrev == NULL
      requires nodeCurr == if start in free[order] then start else NULL
      requires at < |free[order]| && free[order][at] == buddyCurr
      requires buddyPrev == Before(free[order], at)
      modifies this`mem, this`free, list
      ensures ReadyToMerge(node) && mem[node].order == order + 1 && mem[node].magic == MM_MAGIC
    {
      ghost var n := Block(start, order);
      ghost var f := FreeSet(free);
      ghost var s := f + {n} + live;
      assert n.Buddy() in f;
      assert mem[buddyCurr].order == order;
      assert Window(heap, n);
      Addressable(heap, mem, n);
      ParentOf(heap, n);
      MergePending(heap, f, live, n);
      UnlinkPair(order, nodeCurr, nodePrev, buddyCurr, buddyPrev, start, at);
      node := if start < buddyCurr then start else buddyCurr;
      OnListAs(heap, s, free, if start < buddyCurr then n else n.Buddy());
      Raise(node, order + 1, n.Parent());
    }

    /** Makes a node that is on no list the head of the list of order `k`. */
    method Raise(node: nat, k: nat, ghost p: Block)
      requires Shaped() && k <= heap.maxOrder && p == Block(node, k)
      requires forall j :: 0 <= j < |free| ==> node !in free[j]
      requires Headed(mem, FreeSet(free) + live)
      requires node in mem && mem[node].magic == MM_MAGIC
      requires Pending(heap, FreeSet(free) + {p}, live, p)
      modifies this`mem, this`free, list
      ensures ReadyToMerge(node) && mem[node].order == k && mem[node].magic == MM_MAGIC
    {
      ghost var f := FreeSet(free);
      PendingStarts(heap, f, live, p);
      hide Pending, Tiled, Coalesced, Distinct;
      Addressable(heap, mem, p);
      WriteOutside(mem, list[..], free, node, mem[node].(order := k));
      mem := mem[node := mem[node].(order := k)];
      Push(k, node);
      assert f + {p} + {p} == f + {p};
    }

    /** `buddy_merge`: return `start` to the lists, joining buddies as far up as possible. */
    method BuddyMerge(start: nat)
      requires start in mem
      requires mem[start].magic == MM_MAGIC ==> ReadyToMerge(start)
      modifies this`mem, this`free, list
      ensures old(mem[start].magic) != MM_MAGIC ==>
                mem == old(mem) && free == old(free) && list[..] == old(list[..])
      ensures old(mem[start].magic) == MM_MAGIC ==> Valid()
      decreases heap.maxOrder - mem[start].order
    {
      var node: nat := start;
      if mem[node].magic != MM_MAGIC {
        return;
      }
      var order := mem[node].order;
      ghost var n := Block(node, order);
      assert Window(heap, n);
      if order == heap.maxOrder {
        ReturnWhole(node);
        return;
      }
      var buddyNode := Xor(node, Pow2(order));
      ParentOf(heap, n);
      OnListAs(heap, FreeSet(free) + {n} + live, free, n);
      Addressable(heap, mem, n.Buddy());
      var nodeCurr, nodePrev, buddyCurr, buddyPrev, at := FindPair(mem, list[order], free[order], node, buddyNode);
      if buddyCurr == NULL {
        SettlePending(heap, FreeSet(free), live, n);
        if nodeCurr == NULL {
          Addressable(heap, mem, n);
          Push(order, node);
        } else {
          assert FreeSet(free) + {n} == FreeSet(free);
        }
      } else {
        node := Join(node, order, nodeCurr, nodePrev, buddyCurr, buddyPrev, at);
        BuddyMerge(node);
      }
    }

    /** `free`/`kfree` of the address of a live block. */
    method Free(address: nat)
      requires Valid() && MM_HEADER_SIZE <= address && IsLive(address)
      modifies this
      modifies list
      ensures Valid() && live == old(live) - {old(BlockAt(address))}
    {
      var node := address - MM_HEADER_SIZE;
      ghost var b := BlockAt(address);
      FreeMakesPending(heap, FreeSet(free), live, b);
      live := live - {b};
      assert FreeSet(free) + {b} + live == FreeSet(free) + old(live);
      BuddyMerge(node);
    }

    /** The block whose usable part starts at `address`, going by its header. */
    ghost function BlockAt(address: nat): Block
      requires MM_HEADER_SIZE <= address && address - MM_HEADER_SIZE in mem
      reads this
    {
      Block(address - MM_HEADER_SIZE, mem[address - MM_HEADER_SIZE].order)
    }

    ghost predicate IsLive(address: nat)
      requires MM_HEADER_SIZE <= address
      reads this
    {
      address - MM_HEADER_SIZE in mem && BlockAt(address) in live
    }

    lemma AllFree()
      requires Valid() && live == {}
      ensures FreeSet(free) == {heap.Whole()}
    {
      NothingLive(heap, FreeSet(free));
    }

    /** A live block is what the address of its usable part leads to. */
    lemma LiveBlock(b: Block)
      requires Valid() && b in live
      ensures IsLive(b.addr + MM_HEADER_SIZE) && BlockAt(b.addr + MM_HEADER_SIZE) == b
    {
      assert b in FreeSet(free) + live;
    }

    // ----- allocation -----

    /** A block taken off the lists and not yet handed out. */
    ghost predicate InHand(node: nat)
      reads this, list
    {
      && Shaped() && node in mem
      && var n := Block(node, mem[node].order);
      && Headed(mem, FreeSet(free) + {n} + live)
      && Taken(heap, FreeSet(free), live, n)
    }

    /** Writes a node that is on no list. */
    method WriteNode(a: nat, n: HeapNode)
      requires Shaped() && a in mem && forall j :: 0 <= j < |free| ==> a !in free[j]
      modifies this`mem
      ensures Shaped() && mem == old(mem)[a := n]
    {
      WriteOutside(mem, list[..], free, a, n);
      mem := mem[a := n];
    }

    /** `buddy_split`: the right half becomes a free node, the left half stays in hand. */
    method BuddySplit(node: nat)
      requires InHand(node) && mem[node].order > heap.minOrder
      modifies this`mem, this`free, list
      ensures InHand(node) && mem[node].order == old(mem[node].order) - 1
    {
      hide Tiled, Coalesced, Distinct, Aligned, Xor;
      var order := mem[node].order;
      var newOrder := order - 1;
      ghost var n := Block(node, order);
      ghost var f := FreeSet(free);
      SplitTaken(heap, f, live, n);
      Addressable(heap, mem, n.Right());
      NotOnList(free, n.Right().addr);

      var splitNode := node + Pow2(newOrder);
      WriteNode(splitNode, mem[splitNode].(magic := MM_MAGIC, order := newOrder));
      Push(newOrder, splitNode);
      NotOnList(free, node);
      WriteNode(node, mem[node].(order := newOrder, next := NULL));
      HeadedAfterSplit(old(mem), mem, f, live, n);
      assert FreeSet(free) == f + {n.Right()} && Block(node, mem[node].order) == n.Left();
    }

    /** The upward search of `alloc`, entered when the list of order `order` is empty. */
    method SearchUp(order: nat) returns (newOrder: nat, node: nat)
      requires Shaped() && order <= heap.maxOrder && list[order] == NULL
      ensures newOrder == FirstNonEmpty(free, order) <= heap.maxOrder
      ensures node == At(free[newOrder], 0)
      ensures node == NULL <==> free[newOrder] == []
    {
      newOrder, node := order, NULL;
      while node == NULL && newOrder + 1 <= heap.maxOrder
        invariant order <= newOrder <= heap.maxOrder
        invariant node == list[newOrder]
        invariant FirstNonEmpty(free, order) == FirstNonEmpty(free, newOrder)
        decreases heap.maxOrder - newOrder
      {
        assert Chain(mem, list[newOrder], free[newOrder]) && free[newOrder] == [];
        newOrder := newOrder + 1;
        node := list[newOrder];
      }
      assert Chain(mem, list[newOrder], free[newOrder]);
    }

    /** The downward loop of `alloc`. */
    method SplitDown(node: nat, from: nat, order: nat)
      requires InHand(node) && mem[node].order == from && heap.minOrder <= order <= from
      modifies this`mem, this`free, list
      ensures InHand(node) && mem[node].order == order
    {
      var newOrder := from;
      while newOrder > order
        invariant order <= newOrder <= from
        invariant InHand(node) && mem[node].order == newOrder
        modifies this`mem, this`free, list
      {
        BuddySplit(node);
        newOrder := newOrder - 1;
      }
    }

    /** The middle of `alloc`: take the head of the least nonempty list that is large enough and
        split it down to the wanted order. */
    method Find(order: nat) returns (node: nat)
      requires Valid() && heap.minOrder <= order <= heap.maxOrder
      modifies this`mem, this`free, list
      ensures node == At(old(free)[FirstNonEmpty(old(free), order)], 0)
      ensures node == NULL <==> old(free)[FirstNonEmpty(old(free), order)] == []
      ensures node == NULL ==> mem == old(mem) && free == old(free) && list[..] == old(list[..])
      ensures node != NULL ==> InHand(node) && mem[node].order == order
    {
      assert Chain(mem, list[order], free[order]);
      if list[order] != NULL {
        node := list[order];
        TakeHead(order, node);
      } else {
        var newOrder: nat;
        newOrder, node := SearchUp(order);
        if node == NULL {
          return;
        }
        TakeHead(newOrder, node);
        SplitDown(node, newOrder, order);
      }
    }

    /** `alloc`. The panics on a wrong header cannot fire. */
    method Alloc(order0: nat) returns (address: nat)
      requires Valid()
      modifies this
      modifies list
      ensures Valid()
      ensures address == NULL <==> !Allocatable(heap, old(live), order0)
      ensures address == NULL ==> live == old(live) && mem == old(mem) && free == old(free) && list[..] == old(list[..])
      ensures address != NULL ==>
                && MM_HEADER_SIZE <= address && IsLive(address)
                && Granted(old(free), old(live), if order0 < heap.minOrder then heap.minOrder else order0, BlockAt(address))
                && live == old(live) + {BlockAt(address)}
    {
      var order := order0;
      if order < heap.minOrder {
        order := heap.minOrder;
      } else if order > heap.maxOrder {
        return NULL;
      }
      AllocatableIffListed(heap, free, live, order0);
      ghost var free0, live0, b := free, live, Block(At(free[FirstNonEmpty(free, order)], 0), order);
      var node := Find(order);
      if node == NULL {
        return NULL;
      }
      assert mem[node].magic == MM_MAGIC && mem[node].order == order;
      assert b == Block(node, order) && b !in live0;
      assert Granted(free0, live0, order, b);
      HandOut(node);
      address := node + MM_HEADER_SIZE;
      assert BlockAt(address) == b;
    }

    /** The block in hand becomes live. */
    ghost method HandOut(node: nat)
      requires InHand(node)
      modifies this`live
      ensures Valid() && live == old(live) + {Block(node, mem[node].order)}
    {
      ghost var b := Block(node, mem[node].order);
      live := live + {b};
      assert FreeSet(free) + {b} + old(live) == FreeSet(free) + live;
    }

    /** `buddy->list[k] = buddy->list[k]->next` for the head `node` of list `k`. */
    method TakeHead(k: nat, node: nat)
      requires Valid() && k <= heap.maxOrder && free[k] != [] && node == free[k][0]
      modifies this`mem, this`free, list
      ensures InHand(node) && mem[node].order == k
    {
      ghost var f := FreeSet(free);
      ghost var n := Block(node, k);
      assert n in f;
      Unlink(k, node, NULL, 0);
      assert f - {n} + {n} + live == f + live;
    }

    /** `malloc`/`kmalloc`, with the size limit the configuration sets. */
    method Malloc(size: nat, limit: nat) returns (address: nat)
      requires Valid() && limit + MM_HEADER_SIZE < 0x1_0000_0000
      modifies this
      modifies list
      ensures Valid()
      ensures address == NULL <==> size > limit || !RoomFor(heap, old(live), size + MM_HEADER_SIZE)
      ensures address == NULL ==> live == old(live) && mem == old(mem) && free == old(free)
      ensures address != NULL ==>
                && MM_HEADER_SIZE <= address && IsLive(address) && BlockAt(address) !in old(live)
                && live == old(live) + {BlockAt(address)}
                && Pow2(BlockAt(address).order) - MM_HEADER_SIZE >= size
                && (BlockAt(address).order == heap.minOrder || Pow2(BlockAt(address).order - 1) < size + MM_HEADER_SIZE)
                && (address - MM_HEADER_SIZE) % Pow2(BlockAt(address).order) == 0
    {
      if size > limit {
        return NULL;
      }
      var order := SizeToOrder(size + MM_HEADER_SIZE);
      RoomIsAllocatable(heap, live, size + MM_HEADER_SIZE);
      NotTwiceTooLarge(size + MM_HEADER_SIZE, heap.minOrder);
      hide RoomFor, Allocatable, LeastOrder;
      address := Alloc(order);
      if address != NULL {
        ghost var b := BlockAt(address);
        assert b in FreeSet(free) + live;
        AlignedIsDivisible(b.addr, b.order);
      }
    }

    /** What a caller may do with the memory it got: anything but overwrite the block's header. */
    method CallerWrites(ghost b: Block, a: nat, n: HeapNode)
      requires Valid() && b in live && a in mem && b.Holds(a)
      requires a == b.addr ==> n.magic == mem[a].magic && n.order == mem[a].order
      modifies this`mem
      ensures Valid() && mem == old(mem)[a := n]
    {
      ghost var s := FreeSet(free) + live;
      forall c | c in s && c.addr == a ensures c == b {
        assert !Apart(b, c);
      }
      NotOnList(free, a);
      WriteNode(a, n);
    }

    // ----- free space -----

    /** `free_memory`, with its 32-bit accumulator. */
    method FreeMemory() returns (total: nat)
      requires Valid()
      ensures total == Pow2(heap.maxOrder) - SizeOf(live)
    {
      hide Settled, Headed, Pow2, Distinct;
      total := 0;
      var i := heap.minOrder;
      FreeBytesTotal(heap, free, live);
      while i <= heap.maxOrder
        invariant heap.minOrder <= i <= heap.maxOrder + 1
        invariant total == FreeBytes(free, i)
      {
        FreeBytesMono(free, i + 1, |free|);
        total := ListTotal(i, total);
        i := i + 1;
      }
    }

    /** The inner loop of `free_memory`: the bytes on the list of order `i` are added. */
    method ListTotal(i: nat, total0: nat) returns (total: nat)
      requires Shaped() && i < |free| && total0 + Times(|free[i]|, Pow2(i)) < 0x1_0000_0000
      ensures total == total0 + Times(|free[i]|, Pow2(i))
    {
      hide Pow2, Distinct;
      total := total0;
      var node := list[i];
      ghost var s := free[i];
      ghost var j := 0;
      assert Chain(mem, list[i], s);
      while node != NULL
        invariant j <= |s| && node == At(s, j)
        invariant total == total0 + Times(j, Pow2(i))
        decreases |s| - j
      {
        assert LinkAt(mem, s, j);
        TimesMono(j + 1, |s|, Pow2(i));
        total := (total + Pow2(i)) % 0x1_0000_0000;
        node := mem[node].next;
        j := j + 1;
      }
    }
  }

  /** `n` times `p`, by repeated addition. */
  ghost function Times(n: nat, p: nat): nat {
    if n == 0 then 0 else Times(n - 1, p) + p
  }

  lemma {:induction false} TimesMono(j: nat, n: nat, p: nat)
    requires j <= n
    ensures Times(j, p) <= Times(n, p)
  {
    if j < n {
      TimesMono(j, n - 1, p);
    }
  }

  /** The bytes on the lists of order less than `k`. */
  ghost function FreeBytes(free: seq<seq<nat>>, k: nat): nat
    requires k <= |free|
  {
    if k == 0 then 0 else FreeBytes(free, k - 1) + Times(|free[k - 1]|, Pow2(k - 1))
  }

  lemma {:induction false} FreeBytesMono(free: seq<seq<nat>>, j: nat, k: nat)
    requires j <= k <= |free|
    ensures FreeBytes(free, j) <= FreeBytes(free, k)
  {
    if j < k {
      FreeBytesMono(free, j, k - 1);
    }
  }

  lemma FreeBytesTotal(h: Heap, free: seq<seq<nat>>, l: set<Block>)
    requires Settled(h, FreeSet(free), l) && |free| == h.maxOrder + 1
    requires forall k :: 0 <= k < |free| ==> Distinct(free[k])
    ensures FreeBytes(free, |free|) == Pow2(h.maxOrder) - SizeOf(l) < 0x1_0000_0000
    ensures FreeBytes(free, h.minOrder) == 0
  {
    assert free[..|free|] == free;
    FreeBytesIsSize(h, free, l, |free|);
    FreeBytesIsSize(h, free, l, h.minOrder);
    assert FreeSet(free[..h.minOrder]) == {} by {
      assert forall b :: b in FreeSet(free[..h.minOrder]) ==> b in FreeSet(free) && b.order < h.minOrder;
      assert forall b :: b in FreeSet(free) ==> Window(h, b);
    }
    Conservation(h, FreeSet(free), l);
    Pow2Mono(h.maxOrder, 31);
    Pow31();
  }

  lemma {:induction false} FreeBytesIsSize(h: Heap, free: seq<seq<nat>>, l: set<Block>, k: nat)
    requires Settled(h, FreeSet(free), l) && k <= |free|
    requires forall k :: 0 <= k < |free| ==> Distinct(free[k])
    ensures FreeBytes(free, k) == SizeOf(FreeSet(free[..k]))
  {
    hide Distinct, Settled;
    if k == 0 {
      assert FreeSet(free[..0]) == {};
    } else {
      FreeBytesIsSize(h, free, l, k - 1);
      var s := free[k - 1];
      ListBytes(h, free, l, k - 1, |s|);
      assert s[..|s|] == s;
      assert free[..k] == free[..k - 1] + [s];
    }
  }

  lemma {:induction false} ListBytes(h: Heap, free: seq<seq<nat>>, l: set<Block>, k: nat, n: nat)
    requires Settled(h, FreeSet(free), l) && k < |free| && Distinct(free[k]) && n <= |free[k]|
    ensures FreeSet(free[..k] + [free[k][..n]]) <= FreeSet(free)
    ensures SizeOf(FreeSet(free[..k] + [free[k][..n]])) == SizeOf(FreeSet(free[..k])) + Times(n, Pow2(k))
  {
    hide Distinct, Settled, FreeSet, Collects, Listed;
    FreeSetSnoc(free, k, n);
    if n > 0 {
      ListBytes(h, free, l, k, n - 1);
      CountOne(h, FreeSet(free), l, FreeSet(free[..k] + [free[k][..n - 1]]), Block(free[k][n - 1], k));
    }
  }

  lemma FreeSetSnoc(free: seq<seq<nat>>, k: nat, n: nat)
    requires k < |free| && Distinct(free[k]) && n <= |free[k]|
    ensures n == 0 ==> FreeSet(free[..k] + [free[k][..0]]) == FreeSet(free[..k]) <= FreeSet(free)
    ensures n > 0 ==>
              var b, f := Block(free[k][n - 1], k), FreeSet(free[..k] + [free[k][..n - 1]]);
              FreeSet(free[..k] + [free[k][..n]]) == f + {b} && b !in f && b in FreeSet(free)
  {
    var g := free[..k] + [free[k][..n]];
    forall b ensures b in FreeSet(g) <==> b.order <= k && b.addr in g[b.order] {
    }
    if n > 0 {
      var g' := free[..k] + [free[k][..n - 1]];
      assert free[k][..n] == free[k][..n - 1] + [free[k][n - 1]];
      forall b ensures b in FreeSet(g') <==> b.order <= k && b.addr in g'[b.order] {
      }
    }
  }

  lemma CountOne(h: Heap, f: set<Block>, l: set<Block>, seen: set<Block>, b: Block)
    requires Settled(h, f, l) && seen <= f && b in f && b !in seen
    ensures SizeOf(seen + {b}) == SizeOf(seen) + Pow2(b.order)
  {
    assert forall c, d :: c in f && d in f && c != d ==> Apart(c, d);
    SizeOfInsert(seen, b);
  }

  lemma Pow31()
    ensures Pow2(31) == 0x8000_0000
  {
    assert Pow2(8) == 256;
    assert Pow2(16) == 0x1_0000;
    assert Pow2(24) == 0x100_0000;
  }

  // ----- whole runs -----

  /** Freeing a block straight after allocating it restores the free sets. */
  method MallocThenFree(b: Buddy, size: nat, limit: nat)
    requires b.Valid() && limit + MM_HEADER_SIZE < 0x1_0000_0000
    modifies b, b.list
    ensures b.Valid() && b.live == old(b.live) && FreeSet(b.free) == old(FreeSet(b.free))
  {
    var address := b.Malloc(size, limit);
    if address != NULL {
      b.Free(address);
    }
    FreeSetDetermined(b.heap, FreeSet(b.free), old(FreeSet(b.free)), b.live);
  }

  /** Freeing every live block, in any order, restores the heap of `init_buddy`. */
  method FreeAll(b: Buddy, addresses: seq<nat>, ghost blocks: seq<Block>)
    requires b.Valid() && |addresses| == |blocks|
    requires forall i :: 0 <= i < |blocks| ==> addresses[i] == blocks[i].addr + MM_HEADER_SIZE
    requires forall i, j :: 0 <= i < j < |blocks| ==> blocks[i] != blocks[j]
    requires forall l :: l in b.live <==> l in blocks
    modifies b, b.list
    ensures b.Valid() && b.live == {} && FreeSet(b.free) == {b.heap.Whole()}
  {
    hide Buddy.Valid, Buddy.IsLive, Buddy.BlockAt;
    var i := 0;
    assert blocks[0..] == blocks;
    while i < |addresses|
      invariant 0 <= i <= |addresses| && b.Valid()
      invariant forall l :: l in b.live <==> l in blocks[i..]
    {
      b.LiveBlock(blocks[i]);
      b.Free(addresses[i]);
      assert blocks[i..] == [blocks[i]] + blocks[i + 1..];
      i := i + 1;
    }
    assert b.live == {};
    b.AllFree();
  }

  // ----- sizes and orders -----

  function Log2(s: nat): nat {
    if s <= 1 then 0 else 1 + Log2(s / 2)
  }

  lemma {:induction false} Log2Bounds(s: nat)
    requires s > 0
    ensures Pow2(Log2(s)) <= s < 2 * Pow2(Log2(s))
    ensures IsPow2(s) <==> s == Pow2(Log2(s))
  {
    if s > 1 {
      Log2Bounds(s / 2);
    }
  }

  /** The least `k` with `n <= 2^k`. */
  function LeastOrder(n: nat): nat {
    if n <= 1 || IsPow2(n) then Log2(n) else Log2(n) + 1
  }

  lemma LeastOrderFits(n: nat)
    ensures n <= Pow2(LeastOrder(n))
    ensures forall k: nat :: n <= Pow2(k) ==> LeastOrder(n) <= k
  {
    if n > 0 {
      Log2Bounds(n);
      assert LeastOrder(n) > 0 ==> Pow2(LeastOrder(n)) == 2 * Pow2(LeastOrder(n) - 1);
      forall k: nat | n <= Pow2(k) ensures LeastOrder(n) <= k {
        if k < LeastOrder(n) {
          Pow2Mono(k, LeastOrder(n) - 1);
          assert false;
        }
      }
    }
  }

  /** `size_to_order`. */
  method SizeToOrder(size0: nat) returns (order: nat)
    requires size0 < 0x1_0000_0000
    ensures order == LeastOrder(size0)
  {
    hide And;
    var size := size0;
    order := 0;
    if size > 0 {
      AndPredecessor(size);
    } else {
      AndZero(0xFFFF_FFFF);
    }
    assert (size + 0xFFFF_FFFF) % 0x1_0000_0000 == if size > 0 then size - 1 else 0xFFFF_FFFF;
    if And(size, (size + 0xFFFF_FFFF) % 0x1_0000_0000) != 0 {
      order := 1;
    }
    ghost var round := order;
    size := size / 2;
    while size != 0
      invariant Log2(size0) == order - round + (if size == 0 then 0 else 1 + Log2(size))
      decreases size
    {
      order := order + 1;
      size := size / 2;
    }
  }

  /** Some naturally aligned window of at least that order is wholly free. */
  ghost predicate Allocatable(h: Heap, l: set<Block>, order: nat) {
    exists w :: Window(h, w) && w.order >= order && WhollyFree(l, w)
  }

  /** A window is large enough for `n` bytes exactly when its order is at least the least that fits. */
  lemma EnoughIffOrder(n: nat, k: nat)
    ensures n <= Pow2(k) <==> LeastOrder(n) <= k
  {
    LeastOrderFits(n);
    if LeastOrder(n) <= k {
      Pow2Mono(LeastOrder(n), k);
    }
  }

  /** Some naturally aligned window of at least `n` bytes is wholly free. */
  ghost predicate RoomFor(h: Heap, l: set<Block>, n: nat) {
    exists w :: Window(h, w) && n <= Pow2(w.order) && WhollyFree(l, w)
  }

  lemma RoomIsAllocatable(h: Heap, l: set<Block>, n: nat)
    ensures RoomFor(h, l, n) <==> Allocatable(h, l, LeastOrder(n))
  {
    hide Pow2, LeastOrder, Aligned, WhollyFree, Window;
    if w :| Window(h, w) && n <= Pow2(w.order) && WhollyFree(l, w) {
      EnoughIffOrder(n, w.order);
    }
    if w :| Window(h, w) && w.order >= LeastOrder(n) && WhollyFree(l, w) {
      EnoughIffOrder(n, w.order);
    }
  }

  /** A block of the least order that fits, and of no less than `m`, is not twice as large as needed. */
  lemma NotTwiceTooLarge(n: nat, m: nat)
    ensures var k := if LeastOrder(n) < m then m else LeastOrder(n);
            n <= Pow2(k) && (k == m || (k > 0 && Pow2(k - 1) < n))
  {
    var k := if LeastOrder(n) < m then m else LeastOrder(n);
    EnoughIffOrder(n, k);
    if k > m {
      EnoughIffOrder(n, k - 1);
    }
  }

  ghost function FirstNonEmpty(free: seq<seq<nat>>, k: nat): (j: nat)
    requires k < |free|
    ensures k <= j < |free|
    ensures forall i :: k <= i < j ==> free[i] == []
    ensures free[j] == [] ==> forall i :: k <= i < |free| ==> free[i] == []
    decreases |free| - k
  {
    if free[k] != [] || k == |free| - 1 then k else FirstNonEmpty(free, k + 1)
  }

  lemma NotOnList(free: seq<seq<nat>>, a: nat)
    requires forall b :: b in FreeSet(free) ==> b.addr != a
    ensures forall j :: 0 <= j < |free| ==> a !in free[j]
  {
    assert forall j :: 0 <= j < |free| && a in free[j] ==> Block(a, j) in FreeSet(free);
  }

  /** What a successful `alloc` hands out: a fresh block of that order, at the start of the first block of
      the least nonempty list that is large enough. */
  ghost predicate Granted(free: seq<seq<nat>>, l: set<Block>, order: nat, b: Block) {
    && b !in l && b.order == order < |free|
    && b.addr == At(free[FirstNonEmpty(free, b.order)], 0)
  }

  lemma AllocatableIffListed(h: Heap, free: seq<seq<nat>>, l: set<Block>, order: nat)
    requires Settled(h, FreeSet(free), l) && order <= h.maxOrder && |free| == h.maxOrder + 1
    ensures var k := if order < h.minOrder then h.minOrder else order;
            Allocatable(h, l, order) <==> free[FirstNonEmpty(free, k)] != []
  {
    var k := if order < h.minOrder then h.minOrder else order;
    var j := FirstNonEmpty(free, k);
    FreeBlockIffLargeWindow(h, FreeSet(free), l, k);
    assert forall w :: Window(h, w) ==> (w.order >= order <==> w.order >= k);
    if free[j] != [] {
      assert Block(free[j][0], j) in FreeSet(free);
    }
    if b :| b in FreeSet(free) && b.order >= k {
      assert free[b.order] != [];
    }
  }

  lemma InitialHeap(h: Heap)
    requires h.Ok()
    ensures FreeSet(Single(h, h.base)) == {h.Whole()}
    ensures Settled(h, {h.Whole()}, {})
  {
    var free := Single(h, h.base);
    assert forall b :: b in FreeSet(free) <==> b.order < |free| && b.addr in free[b.order];
    forall x | h.base <= x < h.End() ensures Covered({h.Whole()}, x) {
      assert h.Whole().Holds(x);
    }
    assert {h.Whole()} + {} == {h.Whole()};
  }
}
