/** The readers of lib/libfdt/fdt.c and fdt_ro.c over a blob in memory. The ghost argument `items` is
    what the structure block holds; `at` is the item an offset denotes. */
module FdtRead {
  import opened Wrappers
  import opened FdtFormat
  import opened FdtBlob
  import opened FdtWalk
  import opened FdtTraverse
  import opened FdtStrings

  /** The blob is of version 17, inside its buffer, and its structure block holds `items`. */
  ghost predicate Holds(fdt: Blob, items: seq<Item>)
    reads fdt, fdt.buf
  {
    fdt.InBuffer() && fdt.version >= 17 && Layout(fdt.Struct(), items)
  }

  /** `offset` is negative or the offset of item `at`. */
  ghost predicate Denotes(items: seq<Item>, offset: int, at: nat) {
    at <= |items| && (-0x8000_0000 <= offset < 0 || offset == Off(items, at))
  }

  /** At an item boundary `fdt_next_tag` steps to the next item. */
  method StepTag(fdt: Blob, start: int, ghost items: seq<Item>, ghost at: nat) returns (tag: nat, next: int)
    requires Holds(fdt, items) && at <= |items| && start == Off(items, at)
    ensures at < |items| ==> tag == items[at].Tag() && next == Off(items, at + 1)
    ensures at == |items| ==> tag == FDT_END && next == start + 4
    ensures 0 <= next <= MAX_STRUCT
  {
    hide U32, NextTag, Align;
    WalkIsItems(fdt.Struct(), items, at);
    OffAligned(fdt.Struct(), items, at);
    if at < |items| {
      OffAligned(fdt.Struct(), items, at + 1);
    }
    tag, next := ReadTag(fdt, start);
  }

  // ----- walks over items -----

  /** On a boundary: behind the tag of a node, or an error. */
  lemma NodeCodeIs(s: seq<byte>, items: seq<Item>, at: nat)
    requires Layout(s, items) && at <= |items| && Off(items, at) <= MAX_STRUCT
    ensures NodeCode(s, Off(items, at)) == if at < |items| && items[at].Begin? then Off(items, at + 1) else -FDT_ERR_BADOFFSET
  {
    hide U32, NextTag, Align;
    WalkIsItems(s, items, at);
  }

  /** One turn of a walk passes one item. */
  lemma TurnIsItem(s: seq<byte>, items: seq<Item>, k: nat, depth: int, through: bool)
    requires Layout(s, items) && k <= |items|
    ensures Off(items, k) <= MAX_STRUCT && Off(items, k) % 4 == 0
    ensures var w := Turn(s, Off(items, k), depth, through);
            if k == |items| then w == Ended(-FDT_ERR_NOTFOUND, depth)
            else if items[k].Begin? then w == if through then Going(Off(items, k + 1), depth + 1) else AtNode(Off(items, k), depth + 1)
            else if items[k].EndNode? then w == if depth - 1 < 0 then Left(Off(items, k + 1), depth - 1) else Going(Off(items, k + 1), depth - 1)
            else w == Going(Off(items, k + 1), depth)
    ensures k < |items| ==> Off(items, k) < Off(items, k + 1)
  {
    hide U32, NextTag, Align;
    WalkIsItems(s, items, k);
    OffAligned(s, items, k);
  }

  /** A walk over a well-formed block is a search of its items. */
  lemma {:induction false} WalkIsScan(s: seq<byte>, items: seq<Item>, k: nat, depth: int)
    requires Layout(s, items) && k <= |items|
    ensures Off(items, k) <= MAX_STRUCT && Off(items, k) % 4 == 0
    ensures WalkEnd(s, Off(items, k), depth, false).Some?
    ensures var w, st := WalkEnd(s, Off(items, k), depth, false).value, Scan(items, k, depth);
            w.Code() == st.Code(items) && w.depth == st.depth
    decreases |items| - k
  {
    WalkIsItems(s, items, k);
    OffAligned(s, items, k);
    TurnIsItem(s, items, k, depth, false);
    hide U32, NextTag, Align, Layout, Off, Turn, Stuck, WalkEnd;
    WalkTurns(s, Off(items, k), depth, false);
    if k < |items| && !items[k].Begin? && (!items[k].EndNode? || depth > 0) {
      WalkIsScan(s, items, k + 1, if items[k].EndNode? then depth - 1 else depth);
    }
  }

  /** A walk through nodes over a well-formed block is a search for the end tag of the level. */
  lemma {:induction false} WalkIsClose(s: seq<byte>, items: seq<Item>, k: nat, depth: nat)
    requires Layout(s, items) && k <= |items|
    ensures Off(items, k) <= MAX_STRUCT && Off(items, k) % 4 == 0
    ensures WalkEnd(s, Off(items, k), depth, true).Some?
    ensures WalkEnd(s, Off(items, k), depth, true).value.Code() == ChildCode(items, CloseOf(items, k, depth))
    decreases |items| - k
  {
    WalkIsItems(s, items, k);
    OffAligned(s, items, k);
    TurnIsItem(s, items, k, depth, true);
    hide U32, NextTag, Align, Layout, Off, Turn, Stuck, WalkEnd;
    WalkTurns(s, Off(items, k), depth, true);
    if k < |items| && (!items[k].EndNode? || depth > 0) {
      WalkIsClose(s, items, k + 1, if items[k].EndNode? then depth - 1 else if items[k].Begin? then depth + 1 else depth);
    }
  }

  /** `_fdt_check_node_offset` on a boundary: the offset behind the node's tag, or an error. */
  method CheckNodeOffset(fdt: Blob, offset: int, ghost items: seq<Item>, ghost at: nat) returns (r: int)
    requires Holds(fdt, items) && Denotes(items, offset, at)
    ensures r == if offset >= 0 && at < |items| && items[at].Begin? then Off(items, at + 1) else -FDT_ERR_BADOFFSET
  {
    hide U32, NextTag, Align;
    OffAligned(fdt.Struct(), items, at);
    if offset >= 0 {
      NodeCodeIs(fdt.Struct(), items, at);
    }
    r := CheckNodeTag(fdt, offset);
  }

  /** `fdt_next_node` over items, with a depth counter. */
  method NextNode(fdt: Blob, offset0: int, depth0: int, ghost items: seq<Item>, ghost at0: nat)
    returns (r: int, depth: int)
    requires Holds(fdt, items) && Denotes(items, offset0, at0)
    ensures offset0 >= 0 && !(at0 < |items| && items[at0].Begin?) ==> r == -FDT_ERR_BADOFFSET && depth == depth0
    ensures offset0 < 0 || (at0 < |items| && items[at0].Begin?) ==>
              var st := Scan(items, if offset0 < 0 then 0 else at0 + 1, depth0);
              r == st.Code(items) && depth == st.depth
  {
    hide U32, NextTag, Align, WalkEnd, Scan;
    OffAligned(fdt.Struct(), items, at0);
    OffZero(items);
    if offset0 < 0 {
      WalkIsScan(fdt.Struct(), items, 0, depth0);
    } else {
      NodeCodeIs(fdt.Struct(), items, at0);
      if at0 < |items| && items[at0].Begin? {
        WalkIsScan(fdt.Struct(), items, at0 + 1, depth0);
      }
    }
    r, depth := WalkNode(fdt, offset0, depth0);
  }

  lemma OffZero(items: seq<Item>)
    ensures Off(items, 0) == 0
  {
  }

  /** `fdt_first_subnode` of the node at `at`. */
  method FirstSubnode(fdt: Blob, offset: int, ghost items: seq<Item>, ghost at: nat) returns (r: int)
    requires Holds(fdt, items) && at < |items| && items[at].Begin? && offset == Off(items, at)
    ensures r == ChildCode(items, NextChild(items, at + 1, 0))
    ensures NextChild(items, at + 1, 0).None? ==> r == -FDT_ERR_NOTFOUND
  {
    hide Layout, Off, Scan, NextChild;
    ScanTowardsChild(items, at + 1, 0);
    var depth: int;
    r, depth := NextNode(fdt, offset, 0, items, at);
    ghost var st := Scan(items, at + 1, 0);
    if st.Found? {
      OffNonNegative(items, st.at);
    }
    ScanDepths(items, at + 1, 0);
    if r < 0 || depth != 1 {
      return -FDT_ERR_NOTFOUND;
    }
  }

  /** The offset of a node, or -FDT_ERR_NOTFOUND. */
  ghost function ChildCode(items: seq<Item>, c: Option<nat>): int
    requires c.Some? ==> c.value <= |items|
  {
    if c.Some? then Off(items, c.value) else -FDT_ERR_NOTFOUND
  }

  lemma OffNonNegative(items: seq<Item>, i: nat)
    requires i <= |items|
    ensures Off(items, i) >= 0
  {
  }

  /** `fdt_next_subnode` of the node at `at`. */
  method NextSubnode(fdt: Blob, offset0: int, ghost items: seq<Item>, ghost at0: nat) returns (r: int)
    requires Holds(fdt, items) && at0 < |items| && items[at0].Begin? && offset0 == Off(items, at0)
    ensures r == ChildCode(items, NextChild(items, at0 + 1, 1))
    ensures NextChild(items, at0 + 1, 1).None? ==> r == -FDT_ERR_NOTFOUND
  {
    hide Layout, Off, Scan, NextChild;
    var offset := offset0;
    var depth := 1;
    ghost var at := at0;
    while true
      invariant at < |items| && items[at].Begin? && offset == Off(items, at) && depth >= 1
      invariant NextChild(items, at + 1, depth) == NextChild(items, at0 + 1, 1)
      decreases |items| - at
    {
      ghost var st := Scan(items, at + 1, depth);
      ScanTowardsChild(items, at + 1, depth);
      ScanDepths(items, at + 1, depth);
      offset, depth := NextNode(fdt, offset, depth, items, at);
      if offset < 0 || depth < 1 {
        return -FDT_ERR_NOTFOUND;
      }
      at := st.at;
      if depth <= 1 {
        return offset;
      }
    }
  }

  /** What `_fdt_node_end_offset` says about the node at `at`. */
  ghost function EndCode(items: seq<Item>, nodeoffset: int, at: nat): int
    requires at <= |items|
  {
    if nodeoffset >= 0 && at < |items| && items[at].Begin? then ChildCode(items, CloseOf(items, at + 1, 0))
    else if nodeoffset >= 0 then -FDT_ERR_BADOFFSET
    else nodeoffset
  }

  /** `_fdt_node_end_offset` over items. */
  method NodeEndOffset(fdt: Blob, offset0: int, ghost items: seq<Item>, ghost at0: nat) returns (r: int)
    requires Holds(fdt, items) && Denotes(items, offset0, at0)
    ensures r == EndCode(items, offset0, at0)
  {
    hide U32, NextTag, Align, WalkEnd, CloseOf, NodeWalk;
    OffAligned(fdt.Struct(), items, at0);
    if offset0 >= 0 {
      NodeCodeIs(fdt.Struct(), items, at0);
      EndWalkIs(fdt.Struct(), offset0, 0);
      if at0 < |items| && items[at0].Begin? {
        WalkIsClose(fdt.Struct(), items, at0 + 1, 0);
      }
    }
    r := WalkToEnd(fdt, offset0);
  }

  // ----- nodes by name -----

  /** `_fdt_nodename_eq` against the node at `at`. */
  method NodenameEq(fdt: Blob, offset: int, key: seq<byte>, ghost items: seq<Item>, ghost at: nat) returns (eq: bool)
    requires Holds(fdt, items) && at < |items| && items[at].Begin? && offset == Off(items, at)
    requires 0 !in key && |key| <= MAX_STRUCT
    ensures eq == NameMatches(items[at].name, key)
  {
    hide U32, NameMatches, Off;
    ghost var s := fdt.Struct();
    ghost var name := items[at].name;
    OffAligned(s, items, at);
    assert ItemSits(s, items, at);
    var o := offset + FDT_TAGSIZE;
    NameWindow(s, o, name, key);
    OffsetOkMeans(|s|, o, |key| + 1);
    hide OffsetOk, Layout, Sits, Align, PadLen;
    eq := CompareName(fdt, o, key);
  }

  /** `_fdt_nodename_eq` on the raw bytes from offset `o` on. */
  method CompareName(fdt: Blob, o: nat, key: seq<byte>) returns (eq: bool)
    requires fdt.InBuffer() && o < fdt.size_dt_struct && |key| <= MAX_STRUCT
    ensures var s := fdt.Struct();
            eq == (o + |key| < |s| && s[o..o + |key|] == key && (s[o + |key|] == 0 || (AT_SIGN !in key && s[o + |key|] == AT_SIGN)))
  {
    var len := |key|;
    OffsetOkMeans(fdt.size_dt_struct, o, len + 1);
    hide OffsetOk;
    if !OffsetOk(fdt.size_dt_struct, o, len + 1) {
      return false;
    }
    var p := fdt.off_dt_struct + o;
    SliceOfSlice(fdt.buf[..], fdt.off_dt_struct, fdt.off_dt_struct + fdt.size_dt_struct, o, o + len);
    assert fdt.buf[p..p + len] == fdt.Struct()[o..o + len];
    if fdt.buf[p..p + len] != key {
      return false;
    }
    if fdt.buf[p + len] == 0 {
      return true;
    } else if AT_SIGN !in key && fdt.buf[p + len] == AT_SIGN {
      return true;
    } else {
      return false;
    }
  }

  /** The bytes compared with a key lie in the node's name, or the comparison fails on its NUL. */
  lemma NameWindow(s: seq<byte>, o: nat, name: seq<byte>, key: seq<byte>)
    requires o + |name| < |s| && s[o..o + |name|] == name && 0 !in name && s[o + |name|] == 0 && 0 !in key
    ensures o + |key| >= |s| ==> !NameMatches(name, key)
    ensures o + |key| < |s| ==>
              (NameMatches(name, key) <==>
               s[o..o + |key|] == key && (s[o + |key|] == 0 || (AT_SIGN !in key && s[o + |key|] == AT_SIGN)))
  {
    if o + |key| < |s| && |key| > |name| {
      assert s[o..o + |key|][|name|] == 0 && key[|name|] != 0;
    } else if o + |key| < |s| && s[o..o + |key|] == key {
      assert s[o..o + |name|][..|key|] == s[o..o + |key|];
      if |key| < |name| {
        assert s[o + |key|] == name[|key|];
      }
    }
    if o + |key| < |s| && NameMatches(name, key) {
      assert s[o..o + |name|][..|key|] == s[o..o + |key|];
      if |key| < |name| {
        assert s[o + |key|] == name[|key|];
      }
    }
  }

  /** `fdt_subnode_offset_namelen` from an item boundary. */
  method SubnodeOffset(fdt: Blob, offset0: int, key: seq<byte>, ghost items: seq<Item>, ghost at0: nat) returns (r: int)
    requires Holds(fdt, items) && Denotes(items, offset0, at0)
    requires 0 !in key && |key| <= MAX_STRUCT
    ensures offset0 < 0 ==> r == offset0
    ensures offset0 >= 0 && !(at0 < |items| && items[at0].Begin?) ==> r == -FDT_ERR_BADOFFSET
    ensures offset0 >= 0 && at0 < |items| && items[at0].Begin? ==> r == ChildCode(items, ChildNamed(items, at0 + 1, 0, key))
    ensures offset0 >= 0 && at0 < |items| && items[at0].Begin? && ChildNamed(items, at0 + 1, 0, key).None? ==> r == -FDT_ERR_NOTFOUND
  {
    hide Layout, Off, Scan, ChildNamed, NameMatches;
    var offset := offset0;
    var depth := 0;
    ghost var at := at0;
    ghost var node := at0 < |items| && items[at0].Begin?;
    ghost var want := if node then ChildNamed(items, at0 + 1, 0, key) else None;
    while offset >= 0 && depth >= 0
      invariant offset >= 0 && depth >= 0 ==> at <= |items| && offset == Off(items, at)
      invariant offset >= 0 && depth >= 0 && node ==>
                  at < |items| && items[at].Begin?
                  && want == if depth == 1 && NameMatches(items[at].name, key) then Some(at) else ChildNamed(items, at + 1, depth, key)
      invariant offset >= 0 && depth >= 0 && !node ==> at == at0 && depth == 0
      invariant offset < 0 ==> offset == if offset0 < 0 then offset0 else if node then -FDT_ERR_NOTFOUND else -FDT_ERR_BADOFFSET
      invariant offset0 >= 0 && (offset < 0 || depth < 0) ==> want == None
      invariant depth < 0 ==> node && offset0 >= 0
      decreases if offset >= 0 && depth >= 0 then |items| - at + 1 else 0
    {
      if depth == 1 {
        var eq := NodenameEq(fdt, offset, key, items, at);
        if eq {
          return offset;
        }
      }
      if node {
        ScanTowardsNamed(items, at + 1, depth, key);
        ScanDepths(items, at + 1, depth);
      }
      ghost var st := if node then Scan(items, at + 1, depth) else Missing(0);
      offset, depth := NextNode(fdt, offset, depth, items, at);
      if st.Found? {
        at := st.at;
      }
    }
    if depth < 0 {
      return -FDT_ERR_NOTFOUND;
    }
    return offset;
  }

  // ----- ancestors -----

  /** `fdt_supernode_atdepth_offset` of the node at `at`: its ancestor at the wanted depth, and its own
      depth. */
  method SupernodeAtDepth(fdt: Blob, nodeoffset: int, supernodedepth: int, ghost items: seq<Item>, ghost at: nat)
    returns (r: int, nodedepth: int)
    requires Holds(fdt, items) && InTree(items, at) && nodeoffset == Off(items, at)
    ensures supernodedepth < 0 || supernodedepth > Depth(items, at) ==> r == -FDT_ERR_NOTFOUND
    ensures 0 <= supernodedepth <= Depth(items, at) ==>
              exists j :: Ancestor(items, at, supernodedepth, j) && r == Off(items, j)
    ensures supernodedepth >= 0 ==> nodedepth == Depth(items, at)
  {
    hide Layout, Scan, Off;
    nodedepth := 0;
    if supernodedepth < 0 {
      return -FDT_ERR_NOTFOUND, nodedepth;
    }
    var supernodeoffset := -13;
    var offset, depth := 0, 0;
    ghost var j := 0;
    ghost var seen: Option<nat> := None;
    OffZero(items);
    while true
      invariant j <= at && items[j].Begin? && offset == Off(items, j) && depth == Depth(items, j)
      invariant seen == if j == 0 then None else LastAt(items, j - 1, supernodedepth)
      invariant seen.Some? ==> supernodeoffset == Off(items, seen.value)
      decreases |items| - j
    {
      if depth == supernodedepth {
        supernodeoffset := offset;
      }
      seen := LastAt(items, j, supernodedepth);
      if offset == nodeoffset {
        SameOffset(fdt.Struct(), items, j, at);
        nodedepth := depth;
        if supernodedepth > depth {
          return -FDT_ERR_NOTFOUND, nodedepth;
        } else {
          LastAtIsAncestor(items, at, supernodedepth);
          return supernodeoffset, nodedepth;
        }
      }
      ScanInTree(items, j, at);
      ghost var st := Scan(items, j + 1, depth);
      offset, depth := NextNode(fdt, offset, depth, items, j);
      LastAtSkip(items, j, st.at - 1, supernodedepth);
      j := st.at;
    }
  }

  lemma SameOffset(s: seq<byte>, items: seq<Item>, j: nat, k: nat)
    requires Layout(s, items) && j <= |items| && k <= |items| && Off(items, j) == Off(items, k)
    ensures j == k
  {
    if j < k {
      OffMonotone(s, items, j, k);
    } else if k < j {
      OffMonotone(s, items, k, j);
    }
  }

  /** Inside the tree, the search from a node before `at` finds a node no later than `at`. */
  lemma ScanInTree(items: seq<Item>, j: nat, at: nat)
    requires InTree(items, at) && j < at && items[j].Begin?
    ensures var s := Scan(items, j + 1, Depth(items, j));
            s.Found? && j < s.at <= at && s.depth == Depth(items, s.at)
            && forall m :: j < m < s.at ==> !items[m].Begin?
  {
    ScanDepth(items, j + 1, Depth(items, j));
    assert Depth(items, j + 1) == Depth(items, j) + 1;
  }

  lemma {:induction false} LastAtSkip(items: seq<Item>, j: nat, k: nat, d: nat)
    requires j <= k < |items| && forall m :: j < m <= k ==> !items[m].Begin?
    ensures LastAt(items, k, d) == LastAt(items, j, d)
    decreases k
  {
    if j < k {
      LastAtSkip(items, j, k - 1, d);
    }
  }

  /** `fdt_node_depth`. */
  method NodeDepth(fdt: Blob, nodeoffset: int, ghost items: seq<Item>, ghost at: nat) returns (r: int)
    requires Holds(fdt, items) && InTree(items, at) && nodeoffset == Off(items, at)
    ensures r == Depth(items, at) >= 0
  {
    LastAtIsAncestor(items, at, 0);
    var err, nodedepth := SupernodeAtDepth(fdt, nodeoffset, 0, items, at);
    forall j | Ancestor(items, at, 0, j) ensures j == 0 {
      assert Depth(items, 0) == 0;
    }
    OffZero(items);
    if err != 0 {
      return if err < 0 then err else -13;
    }
    return nodedepth;
  }

  /** `fdt_parent_offset`. */
  method ParentOffset(fdt: Blob, nodeoffset: int, ghost items: seq<Item>, ghost at: nat) returns (r: int)
    requires Holds(fdt, items) && InTree(items, at) && nodeoffset == Off(items, at)
    ensures at == 0 ==> r == -FDT_ERR_NOTFOUND
    ensures at > 0 ==> exists j :: Ancestor(items, at, Depth(items, at) - 1, j) && r == Off(items, j)
  {
    var nodedepth := NodeDepth(fdt, nodeoffset, items, at);
    if nodedepth < 0 {
      return nodedepth;
    }
    var unused: int;
    r, unused := SupernodeAtDepth(fdt, nodeoffset, nodedepth - 1, items, at);
    assert Depth(items, 0) == 0;
  }

  // ----- properties -----

  /** `Holds`, and the property names are strings of the strings block. */
  ghost predicate HoldsNamed(fdt: Blob, items: seq<Item>)
    reads fdt, fdt.buf
  {
    Holds(fdt, items) && NamesOk(items, fdt.Strings())
  }

  /** `_fdt_string_eq`. */
  method StringEq(fdt: Blob, stroffset: nat, name: seq<byte>) returns (eq: bool)
    requires fdt.InBuffer() && Terminated(fdt.Strings(), stroffset)
    ensures eq == (StringAt(fdt.Strings(), stroffset) == name)
  {
    ghost var t := fdt.Strings();
    var p := fdt.off_dt_strings + stroffset;
    var len := 0;
    while fdt.buf[p + len] != 0
      invariant stroffset + len <= NameEnd(t, stroffset)
      decreases NameEnd(t, stroffset) - len
    {
      assert t[stroffset + len] == fdt.buf[p + len];
      len := len + 1;
    }
    assert t[stroffset + len] == fdt.buf[p + len] == 0;
    assert stroffset + len == NameEnd(t, stroffset);
    SliceOfSlice(fdt.buf[..], fdt.off_dt_strings, fdt.off_dt_strings + fdt.size_dt_strings, stroffset, stroffset + len);
    assert fdt.buf[p..p + len] == StringAt(t, stroffset);
    eq := len == |name| && fdt.buf[p..p + len] == name;
  }

  /** Behind the NOPs from item `k` on. */
  function AfterNops(items: seq<Item>, k: nat): (r: nat)
    requires k <= |items|
    ensures k <= r <= |items| && forall m :: k <= m < r ==> items[m].Nop?
    ensures r < |items| ==> !items[r].Nop?
    decreases |items| - k
  {
    if k < |items| && items[k].Nop? then AfterNops(items, k + 1) else k
  }

  /** The walk of `_nextprop` over a well-formed block. */
  lemma {:induction false} PropWalkIsNops(s: seq<byte>, items: seq<Item>, k: nat)
    requires Layout(s, items) && k <= |items|
    ensures Off(items, k) <= MAX_STRUCT
    ensures var p := AfterNops(items, k);
            PropWalk(s, Off(items, k)) ==
            if p == |items| then -FDT_ERR_BADSTRUCTURE
            else if items[p].Prop? then Off(items, p)
            else -FDT_ERR_NOTFOUND
    decreases |items| - k
  {
    WalkIsItems(s, items, k);
    OffAligned(s, items, k);
    hide U32, NextTag, Align, Layout, Off;
    if k < |items| && items[k].Nop? {
      PropWalkIsNops(s, items, k + 1);
    }
  }

  /** `_nextprop` from the item at `k0`. */
  method NextProp(fdt: Blob, offset0: int, ghost items: seq<Item>, ghost k0: nat) returns (r: int)
    requires Holds(fdt, items) && k0 <= |items| && offset0 == Off(items, k0)
    ensures var k := AfterNops(items, k0);
            r == if k == |items| then -FDT_ERR_BADSTRUCTURE
                 else if items[k].Prop? then Off(items, k)
                 else -FDT_ERR_NOTFOUND
  {
    hide U32, NextTag, Align, AfterNops, PropWalk;
    PropWalkIsNops(fdt.Struct(), items, k0);
    OffNonNegative(items, k0);
    r := WalkProp(fdt, offset0);
  }

  lemma {:induction false} SkipNops(items: seq<Item>, i: nat, k: nat, table: seq<byte>, name: seq<byte>)
    requires i <= k <= |items| && forall m :: i <= m < k ==> items[m].Nop?
    ensures FindProp(items, i, table, name) == FindProp(items, k, table, name)
    decreases k - i
  {
    if i < k {
      SkipNops(items, i + 1, k, table, name);
    }
  }

  /** `fdt_get_property`: the offset of the property and the length of its value, or an error code. */
  method GetProperty(fdt: Blob, nodeoffset: int, name: seq<byte>, ghost items: seq<Item>, ghost at: nat)
    returns (prop: int, len: int)
    requires HoldsNamed(fdt, items) && Denotes(items, nodeoffset, at)
    ensures !(nodeoffset >= 0 && at < |items| && items[at].Begin?) ==> prop == -1 && len == -FDT_ERR_BADOFFSET
    ensures nodeoffset >= 0 && at < |items| && items[at].Begin? ==>
              match FindProp(items, at + 1, fdt.Strings(), name)
              case At(j) => prop == Off(items, j) && len == |items[j].value|
              case Absent => prop == -1 && len == -FDT_ERR_NOTFOUND
              case Unclosed => prop == -1 && len == -FDT_ERR_BADSTRUCTURE
  {
    hide Layout, Off, StringAt, Terminated, U32, Blob.Struct, Blob.Strings, Blob.Word, CString;
    ghost var table := fdt.Strings();
    var offset := CheckNodeOffset(fdt, nodeoffset, items, at);
    if offset < 0 {
      return -1, offset;
    }
    ghost var want := FindProp(items, at + 1, table, name);
    ghost var k := AfterNops(items, at + 1);
    offset := NextProp(fdt, offset, items, at + 1);
    SkipNops(items, at + 1, k, table, name);
    while offset >= 0
      invariant k <= |items| && want == FindProp(items, k, table, name)
      invariant offset >= 0 ==> k < |items| && items[k].Prop? && offset == Off(items, k)
      invariant offset < 0 ==>
                  if k == |items| then offset == -FDT_ERR_BADSTRUCTURE
                  else offset == -FDT_ERR_NOTFOUND && (items[k].Begin? || items[k].EndNode?)
      decreases |items| - k + (if offset >= 0 then 1 else 0)
    {
      PropWords(fdt.Struct(), items, k);
      var eq := StringEq(fdt, fdt.Word(offset + 8), name);
      if eq {
        return offset, fdt.Word(offset + 4);
      }
      var tag, next := StepTag(fdt, offset, items, k);
      offset := NextProp(fdt, next, items, k + 1);
      SkipNops(items, k + 1, AfterNops(items, k + 1), table, name);
      k := AfterNops(items, k + 1);
    }
    return -1, offset;
  }

  /** The words of a property's header. */
  lemma PropWords(s: seq<byte>, items: seq<Item>, k: nat)
    requires Layout(s, items) && k < |items| && items[k].Prop?
    ensures Off(items, k) + 12 <= |s|
    ensures U32(s, Off(items, k)) == FDT_PROP
    ensures U32(s, Off(items, k) + 4) == |items[k].value| && U32(s, Off(items, k) + 8) == items[k].nameoff
  {
    hide U32;
    assert ItemSits(s, items, k);
  }
}
