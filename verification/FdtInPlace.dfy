/** The edits of lib/libfdt/fdt_wip.c, which never move a byte: parts of the structure block are
    overwritten with NOP tags. */
module FdtInPlace {
  import opened Wrappers
  import opened FdtFormat
  import opened FdtBlob
  import opened FdtTraverse
  import opened FdtStrings
  import opened FdtRead
  import opened FdtWrite
  import opened FdtTree
  import opened FdtEdit
  import opened FdtTreeEdit
  import opened FdtLaws

  /** The bytes of `n` NOP tags. */
  function NopBytes(n: nat): (s: seq<byte>)
    ensures |s| == 4 * n
  {
    if n == 0 then [] else NopBytes(n - 1) + Put32(FDT_NOP)
  }

  function Nops(n: nat): (r: seq<Item>)
    ensures |r| == n
  {
    seq(n, _ => Nop)
  }

  /** The structure and strings blocks do not meet. */
  ghost predicate Apart(fdt: Blob)
    reads fdt
  {
    || fdt.off_dt_struct + fdt.size_dt_struct <= fdt.off_dt_strings
    || fdt.off_dt_strings + fdt.size_dt_strings <= fdt.off_dt_struct
  }

  /** Only the `n` bytes at `o` of the structure block have changed, to `val`. */
  ghost predicate Patched(b: seq<byte>, c: seq<byte>, p: nat, val: seq<byte>) {
    && |c| == |b| && p + |val| <= |b|
    && c[..p] == b[..p] && c[p..p + |val|] == val && c[p + |val|..] == b[p + |val|..]
  }

  /** `_fdt_nop_region`: whole words, so a length is rounded up. */
  method NopRegion(fdt: Blob, start: nat, len: nat)
    requires start + Align(len) <= fdt.buf.Length
    modifies fdt.buf
    ensures Patched(old(fdt.Bytes()), fdt.Bytes(), start, NopBytes(Align(len) / 4))
  {
    hide U32, U16;
    ghost var b := fdt.Bytes();
    var p := start;
    ghost var n := 0;
    AlignBound(len);
    while p < start + len
      invariant p == start + 4 * n && n <= Align(len) / 4
      invariant Patched(b, fdt.Bytes(), start, NopBytes(n))
      decreases start + len - p
    {
      assert 4 * (n + 1) <= Align(len);
      ghost var c := fdt.Bytes();
      PutBytes(fdt, p, Put32(FDT_NOP));
      PatchMore(b, c, fdt.Bytes(), start, NopBytes(n), Put32(FDT_NOP));
      p := p + 4;
      n := n + 1;
    }
    assert n == Align(len) / 4;
  }

  lemma PatchMore(b: seq<byte>, c: seq<byte>, d: seq<byte>, p: nat, val: seq<byte>, more: seq<byte>)
    requires Patched(b, c, p, val) && Patched(c, d, p + |val|, more)
    ensures Patched(b, d, p, val + more)
  {
    var q := p + |val|;
    var e := q + |more|;
    KeptBelow(c, d, q, 0, p);
    KeptBelow(c, d, q, p, q);
    assert d[p..e] == d[p..q] + d[q..e];
    KeptAbove(b, c, q, e, |b|);
  }

  // ----- the items written -----

  lemma {:induction false} OffNops(n: nat, k: nat)
    requires k <= n
    ensures Off(Nops(n), k) == 4 * k
  {
    if k > 0 {
      OffNops(n, k - 1);
    }
  }

  lemma {:induction false} NopWord(n: nat, k: nat)
    requires k < n
    ensures NopBytes(n)[4 * k..4 * k + 4] == Put32(FDT_NOP)
  {
    hide U32, U16;
    if k < n - 1 {
      NopWord(n - 1, k);
      assert NopBytes(n)[4 * k..4 * k + 4] == NopBytes(n - 1)[4 * k..4 * k + 4];
    }
  }

  lemma NopsSit(u: seq<byte>, o: nat, n: nat, k: nat)
    requires k < n && o + 4 * n <= |u| && u[o..o + 4 * n] == NopBytes(n)
    ensures SitsFrom(u, o, Nops(n), k)
  {
    OffNops(n, k);
    NopWord(n, k);
    WordAt(u, o, NopBytes(n), 4 * k, FDT_NOP);
    hide U32;
  }

  lemma NopsReplace(s: seq<byte>, u: seq<byte>, items: seq<Item>, i: nat, j: nat)
    requires Layout(s, items) && i <= j <= |items|
    requires var o, p := Off(items, i), Off(items, j);
             o <= p && (p - o) % 4 == 0 && Patched(s, u, o, NopBytes((p - o) / 4))
    ensures Layout(u, Replace(items, i, j, Nops((Off(items, j) - Off(items, i)) / 4)))
  {
    hide Layout, Off, Sits, U32, NopBytes;
    var o, p := Off(items, i), Off(items, j);
    var n := (p - o) / 4;
    OffNops(n, n);
    forall k | 0 <= k < n ensures SitsFrom(u, o, Nops(n), k) {
      NopsSit(u, o, n, k);
    }
    OffAligned(s, items, j);
    assert s[p..p + (|s| - p)] == s[p..] && u[p..p + (|s| - p)] == u[p..];
    assert Same(s, 0, u, 0, o) && Same(s, p, u, o + 4 * n, |s| - p);
    LayoutSize(s, items);
    SpliceLayout(s, u, items, i, j, Nops(n));
  }

  lemma LayoutSize(s: seq<byte>, items: seq<Item>)
    requires Layout(s, items)
    ensures |s| <= MAX_STRUCT
  {
  }

  lemma NamesNopped(items: seq<Item>, i: nat, j: nat, n: nat, table: seq<byte>)
    requires i <= j <= |items| && NamesOk(items, table)
    ensures NamesOk(Replace(items, i, j, Nops(n)), table)
  {
    hide Terminated;
    var r := Replace(items, i, j, Nops(n));
    forall k | 0 <= k < |r| && r[k].Prop? ensures Terminated(table, r[k].nameoff) {
      if k < i {
        assert r[k] == items[k];
      } else if k >= i + n {
        assert r[k] == items[k - i - n + j];
      }
    }
  }

  /** NOPs mean nothing. */
  lemma {:induction false} NopsMeanNothing(n: nat, table: seq<byte>)
    ensures Meaning(Nops(n), table) == []
  {
    if n > 0 {
      assert Nops(n)[1..] == Nops(n - 1);
      NopsMeanNothing(n - 1, table);
    }
  }

  /** The tags a client reads are the old ones without those of the overwritten items. */
  lemma NoppedMeans(items: seq<Item>, i: nat, j: nat, n: nat, table: seq<byte>)
    requires i <= j <= |items|
    ensures Meaning(Replace(items, i, j, Nops(n)), table) == Meaning(items[..i], table) + Meaning(items[j..], table)
    ensures Meaning(items, table) == Meaning(items[..i], table) + Meaning(items[i..j], table) + Meaning(items[j..], table)
  {
    MeaningReplace(items, i, j, Nops(n), table);
    NopsMeanNothing(n, table);
  }

  // ----- the edits -----

  /** A patch of whole items by NOPs, seen from the blob. */
  lemma BlobNopped(b: seq<byte>, c: seq<byte>, lo: nat, size: nat, p: nat, val: seq<byte>)
    requires lo + size <= |b| && p + |val| <= size && Patched(b, c, lo + p, val)
    ensures Patched(b[lo..lo + size], c[lo..lo + size], p, val)
  {
    BytesPut(b, c, lo, size, p, |val|);
  }

  lemma PatchedAside(b: seq<byte>, c: seq<byte>, p: nat, val: seq<byte>, lo: nat, hi: nat)
    requires Patched(b, c, p, val) && lo <= hi <= |b| && (hi <= p || p + |val| <= lo)
    ensures c[lo..hi] == b[lo..hi]
  {
    if hi <= p {
      KeptBelow(b, c, p, lo, hi);
    } else {
      KeptAbove(b, c, p + |val|, lo, hi);
    }
  }

  /** Overwriting the items from `i` to `j`. */
  method NopItems(fdt: Blob, offset: nat, len: nat, ghost items: seq<Item>, ghost i: nat, ghost j: nat)
    requires HoldsNamed(fdt, items) && Apart(fdt) && i <= j <= |items|
    requires offset == Off(items, i) && offset + Align(len) == Off(items, j)
    modifies fdt.buf
    ensures HoldsNamed(fdt, Replace(items, i, j, Nops((Off(items, j) - Off(items, i)) / 4)))
    ensures fdt.off_dt_struct + offset <= fdt.buf.Length
    ensures Patched(old(fdt.Bytes()), fdt.Bytes(), fdt.off_dt_struct + offset, NopBytes((Off(items, j) - Off(items, i)) / 4))
    ensures fdt.Strings() == old(fdt.Strings())
  {
    hide Layout, Off, NamesOk, NopBytes, Align, Patched, Blob.Bytes;
    ghost var b := fdt.Bytes();
    ghost var s, n := fdt.Struct(), (Off(items, j) - Off(items, i)) / 4;
    OffAligned(s, items, i);
    OffAligned(s, items, j);
    NopRegion(fdt, fdt.off_dt_struct + offset, len);
    BlobNopped(b, fdt.Bytes(), fdt.off_dt_struct, fdt.size_dt_struct, offset, NopBytes(n));
    NopsReplace(s, fdt.Struct(), items, i, j);
    PatchedAside(b, fdt.Bytes(), fdt.off_dt_struct + offset, NopBytes(n), fdt.off_dt_strings, fdt.off_dt_strings + fdt.size_dt_strings);
    NamesNopped(items, i, j, n, fdt.Strings());
  }

  /** `fdt_nop_property`. */
  method NopProperty(fdt: Blob, nodeoffset: int, name: seq<byte>, ghost items: seq<Item>, ghost at: nat) returns (r: int)
    requires HoldsNamed(fdt, items) && Apart(fdt) && Denotes(items, nodeoffset, at)
    modifies fdt.buf
    ensures r != 0 ==> fdt.Bytes() == old(fdt.Bytes())
    ensures !(nodeoffset >= 0 && at < |items| && items[at].Begin?) ==> r == -FDT_ERR_BADOFFSET
    ensures nodeoffset >= 0 && at < |items| && items[at].Begin? ==>
              match FindProp(items, at + 1, fdt.Strings(), name)
              case At(j) =>
                && r == 0 && fdt.off_dt_struct + Off(items, j) <= fdt.buf.Length
                && HoldsNamed(fdt, Replace(items, j, j + 1, Nops(items[j].Size() / 4)))
                && Patched(old(fdt.Bytes()), fdt.Bytes(), fdt.off_dt_struct + Off(items, j), NopBytes(items[j].Size() / 4))
              case Absent => r == -FDT_ERR_NOTFOUND
              case Unclosed => r == -FDT_ERR_BADSTRUCTURE
    ensures fdt.Strings() == old(fdt.Strings())
  {
    hide Layout, NamesOk, NopBytes, Align, Patched, Blob.Struct, Blob.Strings, Blob.Bytes, FindProp, StringAt;
    var prop, len := GetProperty(fdt, nodeoffset, name, items, at);
    if prop < 0 {
      r := len;
    } else {
      ghost var j := FindProp(items, at + 1, fdt.Strings(), name).at;
      PropRoom(fdt.Struct(), items, j);
      PropAlign(len);
      NopItems(fdt, prop, len + 12, items, j, j + 1);
      r := 0;
    }
  }

  lemma PropAlign(len: nat)
    ensures Align(len + 12) == 12 + Align(len)
  {
  }

  lemma WholeWords(len: nat)
    requires len % 4 == 0
    ensures Align(len) == len
  {
  }

  /** `fdt_nop_node`: the node's tag, its end tag and all between become NOPs. */
  method NopNode(fdt: Blob, nodeoffset: int, ghost items: seq<Item>, ghost at: nat) returns (r: int)
    requires HoldsNamed(fdt, items) && Apart(fdt) && Denotes(items, nodeoffset, at)
    modifies fdt.buf
    ensures r == if EndCode(items, nodeoffset, at) < 0 then EndCode(items, nodeoffset, at) else 0
    ensures r != 0 ==> fdt.Bytes() == old(fdt.Bytes())
    ensures r == 0 ==>
              && nodeoffset >= 0 && at < |items| && items[at].Begin? && CloseOf(items, at + 1, 0).Some?
              && var e := CloseOf(items, at + 1, 0).value;
                 && fdt.off_dt_struct + nodeoffset <= fdt.buf.Length && nodeoffset <= Off(items, e)
                 && HoldsNamed(fdt, Replace(items, at, e, Nops((Off(items, e) - nodeoffset) / 4)))
                 && Patched(old(fdt.Bytes()), fdt.Bytes(), fdt.off_dt_struct + nodeoffset, NopBytes((Off(items, e) - nodeoffset) / 4))
    ensures fdt.Strings() == old(fdt.Strings())
  {
    hide Layout, Off, NamesOk, NopBytes, Align, Patched, Blob.Struct, Blob.Strings, Blob.Bytes, CloseOf;
    var endoffset := NodeEndOffset(fdt, nodeoffset, items, at);
    if endoffset < 0 {
      r := endoffset;
    } else {
      ghost var e := CloseOf(items, at + 1, 0).value;
      OffMonotone(fdt.Struct(), items, at, e);
      OffAligned(fdt.Struct(), items, at);
      OffAligned(fdt.Struct(), items, e);
      WholeWords(endoffset - nodeoffset);
      NopItems(fdt, nodeoffset, endoffset - nodeoffset, items, at, e);
      r := 0;
    }
  }

  // ----- the tree -----

  /** `n` NOPs as a forest. */
  function NopForest(n: nat): (f: Forest)
    ensures f.Len() == n && Proper(f) && Flat(f) == Nops(n)
  {
    if n == 0 then Empty
    else
      assert Nops(n) == [Nop] + Nops(n - 1);
      Leaf(Nop, NopForest(n - 1))
  }

  /** `fdt_nop_node` takes one whole subtree out of the tree and leaves NOPs in its place. */
  lemma {:induction false} NopNodeGrafts(items: seq<Item>, root: nat, f: Forest, at: nat, g: Forest, n: nat)
    requires IsNode(items, root, f) && root < at < root + 1 + f.Len() && IsNode(items, at, g)
    ensures CloseOf(items, at + 1, 0) == Some(at + 2 + g.Len()) && Fits(f, at - (root + 1), 2 + g.Len())
    ensures IsNode(Replace(items, at, at + 2 + g.Len(), Nops(n)), root, Graft(f, at - (root + 1), 2 + g.Len(), NopForest(n)))
  {
    hide Spans, Flat, Proper, Forest.Len, Graft, Fits, CloseOf;
    NodeEnds(items, at, g);
    var m := Node(items[at], g, Empty);
    assert items[at].Begin? && Spans(items, at + 1, g) && at + 1 + g.Len() < |items| && items[at + 1 + g.Len()] == EndNode;
    hide IsNode;
    NoLeaf(items, at + 2 + g.Len());
    MakeNode(items, at, g, Empty);
    NodeLen(items[at], g);
    EditGrafts(items, root, f, at, m, NopForest(n));
  }
}
