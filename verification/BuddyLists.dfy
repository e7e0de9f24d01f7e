/** The intrusive, singly linked free lists, one per order, and the sequences they stand for. */
module BuddyLists {
  import opened Wrappers
  import opened BuddyHeap

  const NULL: nat := 0
  const MM_MAGIC := 0xBEEF
  const MM_HEADER_SIZE := 4

  /** A `struct heapnode` in heap memory: the packed header, then the link. */
  datatype HeapNode = HeapNode(magic: nat, order: nat, next: nat)

  type Memory = map<nat, HeapNode>

  function At(s: seq<nat>, i: nat): nat {
    if i < |s| then s[i] else NULL
  }

  /** The element before index `i`, as a saved predecessor pointer. */
  function Before(s: seq<nat>, i: nat): nat
    requires i <= |s|
  {
    if i == 0 then NULL else s[i - 1]
  }

  ghost predicate LinkAt(mem: Memory, s: seq<nat>, i: nat)
    requires i < |s|
  {
    s[i] in mem && mem[s[i]].next == At(s, i + 1)
  }

  /** The nodes reached from `head` through `next` are those of `s`, in order, up to NULL. */
  ghost predicate Chain(mem: Memory, head: nat, s: seq<nat>) {
    && head == At(s, 0) && NULL !in s && Distinct(s)
    && (forall i {:trigger LinkAt(mem, s, i)} :: 0 <= i < |s| ==> LinkAt(mem, s, i))
  }

  /** List `k` holds nodes whose header says order `k`; so no node is on two lists. */
  ghost predicate Linked(mem: Memory, heads: seq<nat>, free: seq<seq<nat>>) {
    && |heads| == |free|
    && (forall k :: 0 <= k < |free| ==> Chain(mem, heads[k], free[k]))
    && (forall k, a :: 0 <= k < |free| && a in free[k] ==> a in mem && mem[a].order == k)
  }

  ghost predicate Listed(free: seq<seq<nat>>, b: Block) {
    b.order < |free| && b.addr in free[b.order]
  }

  ghost predicate Collects(s: set<Block>, free: seq<seq<nat>>) {
    forall b :: b in s <==> Listed(free, b)
  }

  lemma ListedIsFinite(free: seq<seq<nat>>)
    ensures exists s :: Collects(s, free)
  {
    var s := set k, a | 0 <= k < |free| && a in free[k] :: Block(a, k);
    assert Collects(s, free);
  }

  /** The blocks on the lists. */
  ghost function FreeSet(free: seq<seq<nat>>): (s: set<Block>)
    ensures forall b :: b in s <==> Listed(free, b)
  {
    ListedIsFinite(free);
    var s :| Collects(s, free);
    s
  }

  /** Every block of `s` carries a header with the magic number and its own order. */
  ghost predicate Headed(mem: Memory, s: set<Block>) {
    forall b :: b in s ==> b.addr in mem && mem[b.addr].magic == MM_MAGIC && mem[b.addr].order == b.order
  }

  /** Only links changed. */
  ghost predicate SameHeaders(m: Memory, m': Memory) {
    && m'.Keys == m.Keys
    && forall a :: a in m ==> m'[a].magic == m[a].magic && m'[a].order == m[a].order
  }

  lemma RemovedMembers(s: seq<nat>, i: nat)
    requires i < |s| && Distinct(s)
    ensures Distinct(RemovedAt(s, i))
    ensures forall a :: a in RemovedAt(s, i) <==> a in s && a != s[i]
  {
    var t := RemovedAt(s, i);
    assert forall j :: 0 <= j < |t| ==> t[j] == if j < i then s[j] else s[j + 1];
    forall a | a in s && a != s[i] ensures a in t {
      var j :| 0 <= j < |s| && s[j] == a;
      assert t[if j < i then j else j - 1] == a;
    }
  }

  lemma ChainFrame(mem: Memory, head: nat, s: seq<nat>, a: nat, n: HeapNode)
    requires Chain(mem, head, s) && a !in s
    ensures Chain(mem[a := n], head, s)
  {
    var m := mem[a := n];
    forall i | 0 <= i < |s| ensures LinkAt(m, s, i) {
      assert LinkAt(mem, s, i);
    }
  }

  /** Unlinking the head as the C code does it. */
  lemma UnlinkHead(mem: Memory, head: nat, s: seq<nat>)
    requires Chain(mem, head, s) && s != []
    ensures s[0] in mem && Chain(mem, mem[s[0]].next, RemovedAt(s, 0))
  {
    RemovedMembers(s, 0);
    assert LinkAt(mem, s, 0);
    var t := RemovedAt(s, 0);
    forall j | 0 <= j < |t| ensures LinkAt(mem, t, j) {
      assert LinkAt(mem, s, j + 1);
    }
  }

  /** Unlinking the element at `i` through the saved predecessor. */
  lemma UnlinkInside(mem: Memory, head: nat, s: seq<nat>, i: nat)
    requires Chain(mem, head, s) && 0 < i < |s|
    ensures s[i] in mem && s[i - 1] in mem
    ensures Chain(mem[s[i - 1] := mem[s[i - 1]].(next := mem[s[i]].next)], head, RemovedAt(s, i))
  {
    RemovedMembers(s, i);
    assert LinkAt(mem, s, i) && LinkAt(mem, s, i - 1);
    var m := mem[s[i - 1] := mem[s[i - 1]].(next := mem[s[i]].next)];
    var t := RemovedAt(s, i);
    forall j | 0 <= j < |t| ensures LinkAt(m, t, j) {
      assert LinkAt(mem, s, if j < i then j else j + 1);
      assert At(t, j + 1) == if j + 1 < i then s[j + 1] else At(s, j + 2);
    }
  }

  lemma UnlinkLists(mem: Memory, heads: seq<nat>, free: seq<seq<nat>>, k: nat, i: nat)
    requires Linked(mem, heads, free) && k < |free| && i < |free[k]|
    ensures free[k][i] in mem && (i > 0 ==> free[k][i - 1] in mem)
    ensures var s := free[k];
            var free' := free[k := RemovedAt(s, i)];
            && (i == 0 ==> Linked(mem, heads[k := mem[s[0]].next], free'))
            && (i > 0 ==> Linked(mem[s[i - 1] := mem[s[i - 1]].(next := mem[s[i]].next)], heads, free'))
            && FreeSet(free') == FreeSet(free) - {Block(s[i], k)}
  {
    var s := free[k];
    var free' := free[k := RemovedAt(s, i)];
    RemovedMembers(s, i);
    assert forall j :: 0 <= j < |free| && j != k ==> free'[j] == free[j];
    if i == 0 {
      UnlinkHead(mem, heads[k], s);
    } else {
      UnlinkInside(mem, heads[k], s, i);
      var m := mem[s[i - 1] := mem[s[i - 1]].(next := mem[s[i]].next)];
      assert s[i - 1] in s;
      forall j | 0 <= j < |free| && j != k ensures Chain(m, heads[j], free[j]) {
        ChainFrame(mem, heads[j], free[j], s[i - 1], m[s[i - 1]]);
      }
    }
    FreeSetDrop(free, k, i);
  }

  lemma FreeSetDrop(free: seq<seq<nat>>, k: nat, i: nat)
    requires k < |free| && i < |free[k]| && Distinct(free[k])
    ensures FreeSet(free[k := RemovedAt(free[k], i)]) == FreeSet(free) - {Block(free[k][i], k)}
  {
    RemovedMembers(free[k], i);
    var free' := free[k := RemovedAt(free[k], i)];
    forall b ensures b in FreeSet(free') <==> b in FreeSet(free) - {Block(free[k][i], k)} {
      assert b in FreeSet(free') <==> b.order < |free| && b.addr in free'[b.order];
    }
  }

  lemma PushLists(mem: Memory, heads: seq<nat>, free: seq<seq<nat>>, k: nat, a: nat)
    requires Linked(mem, heads, free) && k < |free| && a in mem && a != NULL && mem[a].order == k
    requires forall j :: 0 <= j < |free| ==> a !in free[j]
    ensures var free' := free[k := [a] + free[k]];
            && Linked(mem[a := mem[a].(next := heads[k])], heads[k := a], free')
            && FreeSet(free') == FreeSet(free) + {Block(a, k)}
  {
    var m := mem[a := mem[a].(next := heads[k])];
    var s := free[k];
    var t := [a] + s;
    var free' := free[k := t];
    forall j | 0 <= j < |free| && j != k ensures Chain(m, heads[j], free[j]) {
      ChainFrame(mem, heads[j], free[j], a, m[a]);
    }
    assert Chain(mem, heads[k], s);
    forall i | 0 <= i < |t| ensures LinkAt(m, t, i) {
      if i > 0 {
        assert t[i] == s[i - 1] && LinkAt(mem, s, i - 1);
      }
    }
    assert Chain(m, a, t);
    FreeSetPush(free, k, a);
  }

  lemma FreeSetPush(free: seq<seq<nat>>, k: nat, a: nat)
    requires k < |free|
    ensures FreeSet(free[k := [a] + free[k]]) == FreeSet(free) + {Block(a, k)}
  {
    var free' := free[k := [a] + free[k]];
    forall b ensures b in FreeSet(free') <==> b in FreeSet(free) + {Block(a, k)} {
      assert b in FreeSet(free') <==> b.order < |free| && b.addr in free'[b.order];
    }
  }

  /** Writing a node that is on no list disturbs none of them. */
  lemma WriteOutside(mem: Memory, heads: seq<nat>, free: seq<seq<nat>>, a: nat, n: HeapNode)
    requires Linked(mem, heads, free)
    requires forall j :: 0 <= j < |free| ==> a !in free[j]
    ensures Linked(mem[a := n], heads, free)
  {
    forall j | 0 <= j < |free| ensures Chain(mem[a := n], heads[j], free[j]) {
      ChainFrame(mem, heads[j], free[j], a, n);
    }
  }
}
