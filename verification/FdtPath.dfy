/** Paths: `fdt_get_path` writes the path of a node, `fdt_path_offset` follows one. */
module FdtPath {
  import opened Wrappers
  import opened FdtFormat
  import opened FdtBlob
  import opened FdtWalk
  import opened FdtTraverse
  import opened FdtStrings
  import opened FdtRead
  import opened FdtTree

  const SLASH: byte := 47

  // ----- the path of a node -----

  /** The name of the last node up to item `j` at depth `d`: of its ancestor there. */
  function NameAtDepth(items: seq<Item>, j: nat, d: nat): seq<byte>
    requires j < |items|
  {
    var r := LastAt(items, j, d);
    if r.Some? then items[r.value].name else []
  }

  /** The names of the ancestors at the first `k` depths, each with a slash behind it. */
  function Full(items: seq<Item>, j: nat, k: nat): seq<byte>
    requires j < |items|
  {
    if k == 0 then [] else Full(items, j, k - 1) + NameAtDepth(items, j, k - 1) + [SLASH]
  }

  /** The path of the node: without the last slash, unless that is all. */
  function PathOf(items: seq<Item>, at: nat): seq<byte>
    requires at < |items| && Depth(items, at) >= 0
  {
    var full := Full(items, at, Depth(items, at) + 1);
    if |full| > 1 then full[..|full| - 1] else full
  }

  /** No node up to item `at` has a slash in its name. */
  ghost predicate NoSlashes(items: seq<Item>, at: nat) {
    forall m :: 0 <= m <= at && m < |items| && items[m].Begin? ==> SLASH !in items[m].name
  }

  lemma {:induction false} FullAgrees(items: seq<Item>, i: nat, j: nat, k: nat)
    requires i < |items| && j < |items| && forall d :: 0 <= d < k ==> LastAt(items, i, d) == LastAt(items, j, d)
    ensures Full(items, i, k) == Full(items, j, k)
  {
    if k > 0 {
      FullAgrees(items, i, j, k - 1);
    }
  }

  lemma {:induction false} FullGrows(items: seq<Item>, j: nat, i: nat, k: nat)
    requires j < |items| && i <= k
    ensures |Full(items, j, i)| <= |Full(items, j, k)|
  {
    if i < k {
      FullGrows(items, j, i, k - 1);
    }
  }

  /** The names above a node are those up to the node right above it. */
  lemma AncestorsShared(items: seq<Item>, c: nat, i: nat)
    requires InTree(items, c) && Depth(items, c) >= 1 && Ancestor(items, c, Depth(items, c) - 1, i)
    ensures InTree(items, i) && Depth(items, i) >= 0 && Full(items, c, Depth(items, c)) == Full(items, i, Depth(items, c))
  {
    hide LastAt, Full;
    var d := Depth(items, c);
    assert Depth(items, 0) == 0;
    hide Depth;
    forall e | 0 <= e < d ensures LastAt(items, c, e) == LastAt(items, i, e) {
      LastAtIsAncestor(items, c, e);
      LastAtIsAncestor(items, i, e);
      AncestorUnique(items, c, e, LastAt(items, c, e).value, LastAt(items, i, e).value);
    }
    FullAgrees(items, c, i, d);
  }

  /** The path of the root is a slash, or its name if it has one; that of any other node is the path of the
      node above, a slash and the node's name, but there is only one slash under a root without a name. */
  lemma PathOfChild(items: seq<Item>, c: nat, i: nat)
    requires InTree(items, c) && Depth(items, c) >= 1 && Ancestor(items, c, Depth(items, c) - 1, i)
    ensures Depth(items, i) >= 0
    ensures PathOf(items, c) == (if i == 0 && items[0].name == [] then [] else PathOf(items, i)) + [SLASH] + items[c].name
  {
    assert c < |items| && i < |items| && items[c].Begin? && items[0].Begin?;
    hide LastAt, Full, NameAtDepth, InTree, Ancestor, Depth, PathOf;
    var d := Depth(items, c);
    AncestorsShared(items, c, i);
    PathParts(items, c, i);
    var front := Full(items, i, d);
    if i == 0 && items[0].name == [] {
      PathOfRoot(items);
      FullOfRoot(items);
    } else {
      NotOnlySlash(items, i);
      PathOfFull(items, i);
      FullEnds(items, i, d);
      assert front == front[..|front| - 1] + [SLASH];
    }
  }

  lemma PathParts(items: seq<Item>, c: nat, i: nat)
    requires InTree(items, c) && Depth(items, c) >= 1 && Ancestor(items, c, Depth(items, c) - 1, i)
    requires Full(items, c, Depth(items, c)) == Full(items, i, Depth(items, c))
    ensures i < |items| && Depth(items, i) == Depth(items, c) - 1
    ensures PathOf(items, c) == Full(items, i, Depth(items, c)) + items[c].name
  {
    hide LastAt, Full, NameAtDepth, Depth;
    var d := Depth(items, c);
    OwnName(items, c);
    FullStep(items, c, d + 1);
    FullEnds(items, c, d);
    var front := Full(items, i, d);
    assert (front + items[c].name + [SLASH])[..|front| + |items[c].name|] == front + items[c].name;
  }

  lemma PathOfFull(items: seq<Item>, i: nat)
    requires i < |items| && Depth(items, i) >= 0 && |Full(items, i, Depth(items, i) + 1)| > 1
    ensures var full := Full(items, i, Depth(items, i) + 1); PathOf(items, i) == full[..|full| - 1]
  {
  }

  lemma NotOnlySlash(items: seq<Item>, i: nat)
    requires InTree(items, i) && Depth(items, i) >= 0 && (i > 0 || items[0].name != [])
    ensures |Full(items, i, Depth(items, i) + 1)| > 1
  {
    hide LastAt, Full, NameAtDepth;
    var d := Depth(items, i);
    FullStep(items, i, d + 1);
    OwnName(items, i);
    hide Depth;
    if d > 0 {
      FullEnds(items, i, d);
    }
  }

  lemma FullOfRoot(items: seq<Item>)
    requires items != [] && items[0].Begin? && items[0].name == []
    ensures Depth(items, 0) == 0 && Full(items, 0, 1) == [SLASH]
  {
    OwnName(items, 0);
    FullStep(items, 0, 1);
    FullNone(items, 0);
  }

  lemma PathOfRoot(items: seq<Item>)
    requires items != [] && items[0].Begin?
    ensures Depth(items, 0) == 0 && PathOf(items, 0) == if items[0].name == [] then [SLASH] else items[0].name
  {
    OwnName(items, 0);
    FullStep(items, 0, 1);
    FullNone(items, 0);
  }

  // ----- writing it -----

  /** The buffer holds the first `pdepth` names for the node at `j`, and more would not fit. */
  ghost predicate Written(items: seq<Item>, j: nat, b: seq<byte>, buflen: nat, p: nat, pdepth: nat)
    requires j < |items|
  {
    && p <= buflen <= |b| && b[..p] == Full(items, j, pdepth)
    && 0 <= pdepth <= Depth(items, j) + 1
    && (pdepth < Depth(items, j) + 1 ==> |Full(items, j, pdepth + 1)| > buflen)
  }

  /** Taking the last name off again: back to the slash before it. */
  method DropName(buf: array<byte>, p0: nat, ghost front: seq<byte>, ghost name: seq<byte>) returns (p: nat)
    requires p0 <= buf.Length && buf[..p0] == front + name + [SLASH]
    requires SLASH !in name && front != [] && front[|front| - 1] == SLASH
    ensures p == |front| && buf[..p] == front
  {
    p := p0 - 1;
    ghost var b := buf[..p0];
    forall q | |front| <= q < p0 - 1 ensures b[q] != SLASH {
      assert b[q] == name[q - |front|];
    }
    while buf[p - 1] != SLASH
      invariant |front| <= p <= p0 - 1
      decreases p
    {
      assert b[p - 1] == buf[p - 1];
      p := p - 1;
    }
    assert b[p - 1] == buf[p - 1];
    assert buf[..p] == b[..p];
  }

  lemma {:induction false} FullStep(items: seq<Item>, j: nat, k: nat)
    requires j < |items| && k > 0
    ensures Full(items, j, k) == Full(items, j, k - 1) + NameAtDepth(items, j, k - 1) + [SLASH]
  {
  }

  lemma {:induction false} FullEnds(items: seq<Item>, j: nat, k: nat)
    requires j < |items| && k > 0
    ensures Full(items, j, k) != [] && Full(items, j, k)[|Full(items, j, k)| - 1] == SLASH
  {
  }

  /** The loop that leaves the directories below the new node. */
  method Climb(buf: array<byte>, p0: nat, pdepth0: nat, depth: nat, ghost items: seq<Item>, ghost j: nat)
    returns (p: nat, pdepth: nat)
    requires j < |items| && p0 <= buf.Length && buf[..p0] == Full(items, j, pdepth0) && NoSlashes(items, j) && (pdepth0 > depth ==> depth > 0)
    ensures pdepth == (if pdepth0 > depth then depth else pdepth0)
    ensures p <= p0 && buf[..p] == Full(items, j, pdepth)
  {
    hide Full, NameAtDepth, LastAt, NoSlashes;
    p, pdepth := p0, pdepth0;
    while pdepth > depth
      invariant pdepth == pdepth0 || depth <= pdepth < pdepth0
      invariant p <= p0 && buf[..p] == Full(items, j, pdepth)
      decreases pdepth
    {
      FullStep(items, j, pdepth);
      FullEnds(items, j, pdepth - 1);
      NameHasNoSlash(items, j, pdepth - 1);
      p := DropName(buf, p, Full(items, j, pdepth - 1), NameAtDepth(items, j, pdepth - 1));
      pdepth := pdepth - 1;
    }
  }

  lemma NameHasNoSlash(items: seq<Item>, j: nat, d: nat)
    requires j < |items| && NoSlashes(items, j)
    ensures SLASH !in NameAtDepth(items, j, d)
  {
  }

  /** `fdt_get_name` of a node. */
  method GetName(fdt: Blob, nodeoffset: nat, ghost items: seq<Item>, ghost at: nat) returns (name: seq<byte>)
    requires Holds(fdt, items) && at < |items| && items[at].Begin? && nodeoffset == Off(items, at)
    ensures name == items[at].name
  {
    hide Layout, Sits, U32, Align, PadLen, NameEnd;
    ghost var s := fdt.Struct();
    NameStands(s, items, at);
    var found, behind := SkipName(fdt, nodeoffset + FDT_TAGSIZE);
    var p := fdt.off_dt_struct;
    SliceOfSlice(fdt.buf[..], p, p + fdt.size_dt_struct, nodeoffset + 4, behind - 1);
    name := fdt.buf[p + nodeoffset + 4..p + behind - 1];
  }

  lemma {:induction false} NameStands(s: seq<byte>, items: seq<Item>, at: nat)
    requires Layout(s, items) && at < |items| && items[at].Begin?
    ensures var o, n := Off(items, at) + 4, |items[at].name|;
            && o + n < |s| && s[o..o + n] == items[at].name && NameEnd(s, o) == o + n
  {
    hide Sits, NameEnd, U32;
    OffAligned(s, items, at);
    assert ItemSits(s, items, at);
    BeginStands(s, Off(items, at), items[at]);
  }

  lemma {:induction false} BeginStands(s: seq<byte>, o: nat, it: Item)
    requires Sits(s, o, it) && it.Begin?
    ensures var n := |it.name|; o + 4 + n < |s| && s[o + 4..o + 4 + n] == it.name && NameEnd(s, o + 4) == o + 4 + n
  {
    hide U32, NameEnd;
    NameEndIs(s, o + 4, it.name);
  }

  /** The text behind the name of one node. */
  method Append(buf: array<byte>, p0: nat, name: seq<byte>) returns (p: nat)
    requires p0 + |name| + 1 <= buf.Length
    modifies buf
    ensures p == p0 + |name| + 1 && buf[..p] == old(buf[..p0]) + name + [SLASH]
  {
    MemCpy(buf, p0, name);
    p := p0 + |name|;
    buf[p] := SLASH;
    p := p + 1;
  }

  /** The names up to the next node are those of the one before. */
  lemma SameAncestors(items: seq<Item>, last: nat, j: nat, k: nat)
    requires last < j < |items| && items[last].Begin? && items[j].Begin? && k <= Depth(items, j)
    requires forall m :: last < m < j ==> !items[m].Begin?
    ensures Full(items, j, k) == Full(items, last, k)
  {
    forall d | 0 <= d < k ensures LastAt(items, j, d) == LastAt(items, last, d) {
      LastAtSkip(items, last, j - 1, d);
    }
    FullAgrees(items, j, last, k);
  }

  lemma OwnName(items: seq<Item>, j: nat)
    requires j < |items| && items[j].Begin? && Depth(items, j) >= 0
    ensures NameAtDepth(items, j, Depth(items, j)) == items[j].name
  {
  }

  /** The depth of the next node is at most one more. */
  lemma {:induction false} NextDepth(items: seq<Item>, last: nat, j: nat)
    requires last < j < |items| && items[last].Begin? && forall m :: last < m < j ==> !items[m].Begin?
    ensures Depth(items, j) <= Depth(items, last) + 1
    decreases j
  {
    if j > last + 1 {
      NextDepth(items, last, j - 1);
    }
  }

  /** From the state for one node to that for the next: names are taken off down to its depth, and its
      own is put behind, if the buffer has room. */
  method Visit(fdt: Blob, buf: array<byte>, buflen: nat, offset: nat, depth: nat, p0: nat, pdepth0: nat,
               ghost items: seq<Item>, ghost last: nat, ghost j: nat)
    returns (p: nat, pdepth: nat)
    requires Holds(fdt, items) && j < |items| && items[j].Begin? && offset == Off(items, j) && depth == Depth(items, j)
    requires buf != fdt.buf && buflen <= buf.Length && NoSlashes(items, j)
    requires j == 0 ==> last == 0 && p0 == 0 && pdepth0 == 0 && depth == 0
    requires j > 0 ==>
               && last < j && items[last].Begin? && depth > 0 && (forall m :: last < m < j ==> !items[m].Begin?)
               && Written(items, last, buf[..], buflen, p0, pdepth0)
    modifies buf
    ensures Written(items, j, buf[..], buflen, p, pdepth)
  {
    hide Layout, Off, Full, NameAtDepth, LastAt, NoSlashes;
    FullNone(items, last);
    assert buf[..][..p0] == buf[..p0];
    SlashesBefore(items, last, j);
    p, pdepth := Climb(buf, p0, pdepth0, depth, items, last);
    if j > 0 {
      NextDepth(items, last, j);
      SameAncestors(items, last, j, pdepth);
      if pdepth < depth {
        SameAncestors(items, last, j, pdepth + 1);
      }
    }
    OwnName(items, j);
    FullStep(items, j, depth + 1);
    if pdepth >= depth {
      var name := GetName(fdt, offset, items, j);
      if p + |name| + 1 <= buflen {
        p := Append(buf, p, name);
        pdepth := pdepth + 1;
      }
    }
    assert buf[..][..p] == buf[..p];
  }

  lemma FullNone(items: seq<Item>, j: nat)
    requires j < |items|
    ensures Full(items, j, 0) == []
  {
  }

  lemma SlashesBefore(items: seq<Item>, i: nat, j: nat)
    requires NoSlashes(items, j) && i <= j
    ensures NoSlashes(items, i)
  {
  }

  /** `fdt_get_path` of a node of the tree: the path with its NUL, or -FDT_ERR_NOSPACE exactly when the
      buffer is shorter than that, or than two bytes. */
  method GetPath(fdt: Blob, nodeoffset: nat, buf: array<byte>, buflen: nat, ghost items: seq<Item>, ghost at: nat) returns (r: int)
    requires Holds(fdt, items) && InTree(items, at) && nodeoffset == Off(items, at) && Depth(items, at) >= 0
    requires buf != fdt.buf && buflen <= buf.Length && NoSlashes(items, at)
    modifies buf
    ensures r == if buflen < 2 || |PathOf(items, at)| + 1 > buflen then -FDT_ERR_NOSPACE else 0
    ensures r == 0 ==> buf[..|PathOf(items, at)|] == PathOf(items, at) && buf[|PathOf(items, at)|] == 0
  {
    hide Layout, Off, Full, NameAtDepth, LastAt, NoSlashes, Scan;
    if buflen < 2 {
      return -FDT_ERR_NOSPACE;
    }
    var pdepth, p := 0, 0;
    var offset, depth := 0, 0;
    ghost var j: nat, last: nat := 0, 0;
    OffZero(items);
    while true
      invariant j <= at < |items| && items[j].Begin? && offset == Off(items, j) && depth == Depth(items, j)
      invariant j == 0 ==> last == 0 && p == 0 && pdepth == 0 && depth == 0
      invariant j > 0 ==>
                  && last < j && items[last].Begin? && depth > 0 && (forall m :: last < m < j ==> !items[m].Begin?)
                  && Written(items, last, buf[..], buflen, p, pdepth)
      invariant Holds(fdt, items)
      decreases |items| - j
    {
      SlashesBefore(items, j, at);
      p, pdepth := Visit(fdt, buf, buflen, offset, depth, p, pdepth, items, last, j);
      if offset == nodeoffset {
        SameOffset(fdt.Struct(), items, j, at);
        r := Terminate(buf, buflen, p, pdepth, depth, items, at);
        return;
      }
      ScanInTree(items, j, at);
      ghost var st := Scan(items, j + 1, depth);
      last := j;
      offset, depth := NextNode(fdt, offset, depth, items, j);
      j := st.at;
    }
  }

  /** The end of `fdt_get_path`. */
  method Terminate(buf: array<byte>, buflen: nat, p0: nat, pdepth: nat, depth: nat, ghost items: seq<Item>, ghost at: nat)
    returns (r: int)
    requires at < |items| && depth == Depth(items, at) && Written(items, at, buf[..], buflen, p0, pdepth)
    requires 2 <= buflen <= buf.Length
    modifies buf
    ensures r == if |PathOf(items, at)| + 1 > buflen then -FDT_ERR_NOSPACE else 0
    ensures r == 0 ==> buf[..|PathOf(items, at)|] == PathOf(items, at) && buf[|PathOf(items, at)|] == 0
  {
    hide Full;
    FullEnds(items, at, depth + 1);
    if pdepth < depth + 1 {
      FullGrows(items, at, pdepth + 1, depth + 1);
      r := -FDT_ERR_NOSPACE;
    } else {
      var p := p0;
      if p > 1 {
        p := p - 1;
      }
      assert buf[..p] == buf[..][..p0][..p];
      buf[p] := 0;
      r := 0;
    }
  }

  // ----- following a path -----

  /** Where the path component at the front ends. */
  function Component(path: seq<byte>): (q: nat)
    ensures q <= |path| && SLASH !in path[..q] && (q < |path| ==> path[q] == SLASH)
  {
    if path == [] || path[0] == SLASH then 0 else 1 + Component(path[1..])
  }

  /** Following a path from node `at`: slashes are passed, and each component leads to the first child
      whose name it matches. */
  function Walk(items: seq<Item>, at: nat, path: seq<byte>): (r: Option<nat>)
    requires at < |items| && items[at].Begin?
    ensures r.Some? ==> r.value < |items| && items[r.value].Begin?
    decreases |path|
  {
    if path == [] then Some(at)
    else if path[0] == SLASH then Walk(items, at, path[1..])
    else
      var q := Component(path);
      var c := ChildNamed(items, at + 1, 0, path[..q]);
      if c.None? then None else Walk(items, c.value, path[q..])
  }

  /** The loop of `fdt_path_offset`, from position `p0` of the path and from the node at `at0`, or from an
      error. */
  method FollowFrom(fdt: Blob, offset0: int, path: seq<byte>, p0: nat, ghost items: seq<Item>, ghost at0: nat) returns (r: int)
    requires Holds(fdt, items) && Denotes(items, offset0, at0) && (offset0 >= 0 ==> at0 < |items| && items[at0].Begin?)
    requires p0 <= |path| && 0 !in path && |path| <= MAX_STRUCT && (p0 < |path| ==> path[p0] == SLASH)
    ensures r == if offset0 < 0 then offset0 else ChildCode(items, Walk(items, at0, path[p0..]))
  {
    hide Layout, Off, ChildNamed, Walk;
    var offset, p := offset0, p0;
    ghost var at: nat := at0;
    while p < |path|
      invariant p <= |path| && at <= |items| && (offset0 < 0 ==> offset == offset0)
      invariant offset0 >= 0 ==> at < |items| && items[at].Begin? && offset == Off(items, at)
      invariant offset0 >= 0 ==> Walk(items, at, path[p..]) == Walk(items, at0, path[p0..])
      decreases |path| - p
    {
      p := SkipSlashes(path, p, items, at);
      if p == |path| {
        WalkOver(items, at, path);
        return offset;
      }
      var q := NextSlash(path, p);
      if offset0 >= 0 {
        WalkStep(items, at, path, p, q);
      }
      ghost var c: Option<nat> := if offset0 >= 0 then ChildNamed(items, at + 1, 0, path[p..q]) else None;
      offset := SubnodeOffset(fdt, offset, path[p..q], items, at);
      if offset < 0 {
        return offset;
      }
      at := c.value;
      p := q;
    }
    WalkOver(items, at, path);
    return offset;
  }

  /** At the end of a path the walk stays. */
  lemma WalkOver(items: seq<Item>, at: nat, path: seq<byte>)
    ensures at < |items| && items[at].Begin? ==> Walk(items, at, path[|path|..]) == Some(at)
  {
  }

  /** A component leads to the child that it names. */
  lemma WalkStep(items: seq<Item>, at: nat, path: seq<byte>, p: nat, q: nat)
    requires at < |items| && items[at].Begin? && p < |path| && path[p] != SLASH && q == p + Component(path[p..])
    ensures q <= |path|
    ensures var c := ChildNamed(items, at + 1, 0, path[p..q]);
            Walk(items, at, path[p..]) == if c.None? then None else Walk(items, c.value, path[q..])
  {
    hide ChildNamed;
    assert path[p..][..q - p] == path[p..q] && path[p..][q - p..] == path[q..];
  }

  /** The loop that passes slashes. */
  method SkipSlashes(path: seq<byte>, p0: nat, ghost items: seq<Item>, ghost at: nat) returns (p: nat)
    requires p0 <= |path|
    ensures p0 <= p <= |path| && (p < |path| ==> path[p] != SLASH)
    ensures at < |items| && items[at].Begin? ==> Walk(items, at, path[p..]) == Walk(items, at, path[p0..])
  {
    hide ChildNamed;
    p := p0;
    while p < |path| && path[p] == SLASH
      invariant p0 <= p <= |path|
      invariant at < |items| && items[at].Begin? ==> Walk(items, at, path[p..]) == Walk(items, at, path[p0..])
      decreases |path| - p
    {
      assert path[p..][1..] == path[p + 1..];
      p := p + 1;
    }
  }

  /** `fdt_path_offset` of an absolute path, when the tree has a root. */
  method AbsoluteOffset(fdt: Blob, path: seq<byte>, ghost items: seq<Item>) returns (r: int)
    requires Holds(fdt, items) && items != [] && items[0].Begin?
    requires path != [] && path[0] == SLASH && 0 !in path && |path| <= MAX_STRUCT
    ensures r == ChildCode(items, Walk(items, 0, path))
  {
    hide Layout, Off, Walk;
    OffZero(items);
    assert path[0..] == path;
    r := FollowFrom(fdt, 0, path, 0, items, 0);
  }

  /** `strchr(p, '/')`, or the end of the string. */
  method NextSlash(path: seq<byte>, p: nat) returns (q: nat)
    requires p <= |path|
    ensures p <= q <= |path| && q - p == Component(path[p..])
  {
    q := p;
    while q < |path| && path[q] != SLASH
      invariant p <= q <= |path| && Component(path[p..]) == q - p + Component(path[q..])
      decreases |path| - q
    {
      assert path[q..][1..] == path[q + 1..];
      q := q + 1;
    }
  }

  // ----- the round trip -----

  /** A path is followed in parts. */
  lemma {:induction false} WalkSplit(items: seq<Item>, at: nat, s: seq<byte>, t: seq<byte>)
    requires at < |items| && items[at].Begin?
    ensures var r := Walk(items, at, s);
            Walk(items, at, s + [SLASH] + t) == if r.None? then None else Walk(items, r.value, t)
    decreases |s|
  {
    var w := s + [SLASH] + t;
    if s == [] {
      assert w[1..] == t;
    } else if s[0] == SLASH {
      assert w[1..] == s[1..] + [SLASH] + t;
      WalkSplit(items, at, s[1..], t);
    } else {
      var q := Component(s);
      ComponentSplit(s, [SLASH] + t);
      assert w == s + ([SLASH] + t);
      assert w[..q] == s[..q] && w[q..] == s[q..] + [SLASH] + t;
      var c := ChildNamed(items, at + 1, 0, s[..q]);
      if c.Some? {
        WalkSplit(items, c.value, s[q..], t);
      }
    }
  }

  lemma {:induction false} ComponentSplit(s: seq<byte>, t: seq<byte>)
    requires t != [] && t[0] == SLASH
    ensures Component(s + t) == Component(s)
  {
    if s == [] {
      assert s + t == t;
    } else if s[0] != SLASH {
      assert (s + t)[1..] == s[1..] + t;
      ComponentSplit(s[1..], t);
    }
  }

  /** A name is one component. */
  lemma WalkName(items: seq<Item>, at: nat, name: seq<byte>)
    requires at < |items| && items[at].Begin? && name != [] && SLASH !in name
    ensures Walk(items, at, name) == ChildNamed(items, at + 1, 0, name)
  {
    var q := Component(name);
    assert q == |name| && name[..q] == name && name[q..] == [];
  }

  /** Every step from the root down to the node can be found by name: the root is unnamed, and each
      other node on the way has a name, without a slash, that no earlier child of its parent matches. */
  ghost predicate Findable(items: seq<Item>, at: nat) {
    && InTree(items, at) && Depth(items, at) >= 0 && items[0].name == []
    && forall d {:trigger StepFound(items, at, d)} :: 0 < d <= Depth(items, at) ==> StepFound(items, at, d)
  }

  ghost predicate StepFound(items: seq<Item>, at: nat, d: nat)
    requires at < |items|
  {
    d > 0
    && var parent, child := LastAt(items, at, d - 1), LastAt(items, at, d);
       && parent.Some? && child.Some?
       && items[child.value].name != [] && SLASH !in items[child.value].name
       && ChildNamed(items, parent.value + 1, 0, items[child.value].name) == child
  }

  /** The names down to depth `d`, joined by slashes. */
  function Joined(items: seq<Item>, at: nat, d: nat): seq<byte>
    requires at < |items|
  {
    if d == 0 then NameAtDepth(items, at, 0) else Joined(items, at, d - 1) + [SLASH] + NameAtDepth(items, at, d)
  }

  lemma {:induction false} FullIsJoined(items: seq<Item>, at: nat, d: nat)
    requires at < |items|
    ensures Full(items, at, d + 1) == Joined(items, at, d) + [SLASH]
  {
    if d > 0 {
      FullIsJoined(items, at, d - 1);
    } else {
      assert Full(items, at, 0) == [];
    }
  }

  lemma {:induction false} JoinedWalks(items: seq<Item>, at: nat, d: nat)
    requires Findable(items, at) && d <= Depth(items, at)
    ensures LastAt(items, at, d).Some? && Walk(items, 0, Joined(items, at, d)) == LastAt(items, at, d)
  {
    hide Walk, ChildNamed;
    LastAtIsAncestor(items, at, d);
    if d == 0 {
      RootIsLast(items, at);
      WalkNothing(items);
    } else {
      JoinedWalks(items, at, d - 1);
      assert StepFound(items, at, d);
      var name := NameAtDepth(items, at, d);
      WalkSplit(items, 0, Joined(items, at, d - 1), name);
      WalkName(items, LastAt(items, at, d - 1).value, name);
    }
  }

  lemma WalkNothing(items: seq<Item>)
    requires items != [] && items[0].Begin?
    ensures Walk(items, 0, []) == Some(0)
  {
  }

  lemma RootIsLast(items: seq<Item>, at: nat)
    requires InTree(items, at) && LastAt(items, at, 0).Some? && Ancestor(items, at, 0, LastAt(items, at, 0).value)
    ensures LastAt(items, at, 0) == Some(0)
  {
    assert Depth(items, 0) == 0;
    AncestorUnique(items, at, 0, 0, LastAt(items, at, 0).value);
  }

  /** Following the path of a node that can be found leads to the node. */
  lemma PathLeadsBack(items: seq<Item>, at: nat)
    requires Findable(items, at)
    ensures PathOf(items, at) != [] && PathOf(items, at)[0] == SLASH
    ensures Walk(items, 0, PathOf(items, at)) == Some(at)
  {
    hide Walk, ChildNamed, LastAt;
    var d := Depth(items, at);
    JoinedWalks(items, at, 0);
    JoinedWalks(items, at, d);
    FullIsJoined(items, at, d);
    LastIsSelf(items, at);
    RootUnnamed(items, at);
    if d == 0 {
      assert PathOf(items, at) == [] + [SLASH] + [];
      WalkNothing(items);
      WalkSplit(items, 0, [], []);
    } else {
      JoinedStarts(items, at, d);
      assert PathOf(items, at) == Joined(items, at, d);
    }
  }

  lemma RootUnnamed(items: seq<Item>, at: nat)
    requires Findable(items, at) && LastAt(items, at, 0).Some?
    ensures NameAtDepth(items, at, 0) == [] && Joined(items, at, 0) == []
  {
    LastAtIsAncestor(items, at, 0);
    RootIsLast(items, at);
  }

  lemma {:induction false} JoinedStarts(items: seq<Item>, at: nat, d: nat)
    requires at < |items| && Joined(items, at, 0) == [] && d > 0
    ensures Joined(items, at, d) != [] && Joined(items, at, d)[0] == SLASH
  {
    if d > 1 {
      JoinedStarts(items, at, d - 1);
    }
  }

  lemma LastIsSelf(items: seq<Item>, at: nat)
    requires at < |items| && items[at].Begin? && Depth(items, at) >= 0
    ensures LastAt(items, at, Depth(items, at)) == Some(at)
  {
  }

  lemma {:induction false} FullHasNoNul(s: seq<byte>, items: seq<Item>, j: nat, k: nat)
    requires Layout(s, items) && j < |items|
    ensures 0 !in Full(items, j, k)
  {
    hide Layout, Off, LastAt;
    if k > 0 {
      FullHasNoNul(s, items, j, k - 1);
      NameHasNoNul(s, items, j, k - 1);
    }
  }

  lemma {:induction false} NameHasNoNul(s: seq<byte>, items: seq<Item>, j: nat, d: nat)
    requires Layout(s, items) && j < |items|
    ensures 0 !in NameAtDepth(items, j, d)
  {
    hide U32, Align, PadLen;
    var r := LastAt(items, j, d);
    if r.Some? {
      OffAligned(s, items, r.value);
    }
  }

  /** `fdt_get_path`, and, if it worked, `fdt_path_offset` of what it wrote: back at the node. */
  method ThereAndBack(fdt: Blob, nodeoffset: nat, buf: array<byte>, buflen: nat, ghost items: seq<Item>, ghost at: nat)
    returns (r: int, back: int)
    requires Holds(fdt, items) && Findable(items, at) && NoSlashes(items, at) && nodeoffset == Off(items, at)
    requires buf != fdt.buf && buflen <= buf.Length && buflen <= MAX_STRUCT
    modifies buf
    ensures r == if buflen < 2 || |PathOf(items, at)| + 1 > buflen then -FDT_ERR_NOSPACE else 0
    ensures r == 0 ==> back == nodeoffset
  {
    hide Layout, Off, Full, Walk, NoSlashes, PathOf, LastAt, Depth;
    back := -FDT_ERR_NOTFOUND;
    PathLeadsBack(items, at);
    PathHasNoNul(fdt.Struct(), items, at);
    r := GetPath(fdt, nodeoffset, buf, buflen, items, at);
    if r == 0 {
      ghost var path := PathOf(items, at);
      forall q | 0 <= q < |path| ensures buf[q] != 0 {
        assert buf[q] == path[q];
      }
      var n := StrLen(buf, |path|);
      back := AbsoluteOffset(fdt, buf[..n], items);
    }
  }

  /** `strlen`. */
  method StrLen(buf: array<byte>, ghost len: nat) returns (n: nat)
    requires len < buf.Length && buf[len] == 0 && forall q :: 0 <= q < len ==> buf[q] != 0
    ensures n == len
  {
    n := 0;
    while buf[n] != 0
      invariant n <= len
      decreases len - n
    {
      n := n + 1;
    }
  }

  lemma PathHasNoNul(s: seq<byte>, items: seq<Item>, at: nat)
    requires Layout(s, items) && at < |items| && Depth(items, at) >= 0
    ensures 0 !in PathOf(items, at)
  {
    hide Layout, Full;
    FullHasNoNul(s, items, at, Depth(items, at) + 1);
  }

  // ----- when a child is found by its name -----

  /** The name of the node at item `c`. */
  function NameOf(items: seq<Item>, c: nat): seq<byte> {
    if c < |items| && items[c].Begin? then items[c].name else []
  }

  /** None of the first `j` of the nodes has a name that matches. */
  ghost predicate NoneBefore(items: seq<Item>, c: seq<nat>, j: nat, key: seq<byte>)
    requires j <= |c|
  {
    forall i :: 0 <= i < j ==> !NameMatches(NameOf(items, c[i]), key)
  }

  lemma NoneBeforeCons(items: seq<Item>, k: nat, c: seq<nat>, j: nat, key: seq<byte>)
    requires j <= |c|
    ensures NoneBefore(items, [k] + c, j + 1, key) <==> !NameMatches(NameOf(items, k), key) && NoneBefore(items, c, j, key)
  {
    hide NameMatches, NameOf;
    var d := [k] + c;
    if NoneBefore(items, d, j + 1, key) {
      assert d[0] == k;
      forall i | 0 <= i < j ensures !NameMatches(NameOf(items, c[i]), key) {
        assert d[i + 1] == c[i];
      }
    }
  }

  lemma {:induction false} FirstMatching(items: seq<Item>, k: nat, f: Forest, j: nat, key: seq<byte>)
    requires Spans(items, k, f) && j < |Children(f, k)|
    ensures Named(f, k, key) == Some(Children(f, k)[j]) <==>
            NameMatches(NameOf(items, Children(f, k)[j]), key) && NoneBefore(items, Children(f, k), j, key)
    decreases f
  {
    hide NameMatches, NoneBefore;
    match f
    case Leaf(_, rest) => FirstMatching(items, k + 1, rest, j, key);
    case Node(b, body, rest) =>
      var e := k + 2 + body.Len();
      assert NameOf(items, k) == b.name;
      if j == 0 {
        NamedAfter(rest, e, key);
        NoneBeforeFirst(items, Children(f, k), key);
      } else {
        ChildInForest(items, e, rest, j - 1);
        FirstMatching(items, e, rest, j - 1, key);
        NoneBeforeCons(items, k, Children(rest, e), j - 1, key);
      }
  }

  lemma NoneBeforeFirst(items: seq<Item>, c: seq<nat>, key: seq<byte>)
    ensures NoneBefore(items, c, 0, key)
  {
  }

  lemma {:induction false} NamedAfter(f: Forest, k: nat, key: seq<byte>)
    ensures Named(f, k, key).Some? ==> Named(f, k, key).value >= k
    decreases f
  {
    hide NameMatches;
    match f
    case Empty =>
    case Leaf(_, rest) => NamedAfter(rest, k + 1, key);
    case Node(_, body, rest) => NamedAfter(rest, k + 2 + body.Len(), key);
  }

  /** A child is what the search for its own name finds exactly when the name of no child before it
      matches that name: is the same, or the same up to a unit address that the child's name lacks. */
  lemma FoundByOwnName(items: seq<Item>, i: nat, f: Forest, j: nat)
    requires IsNode(items, i, f) && j < |Children(f, i + 1)|
    ensures var c := Children(f, i + 1)[j];
            ChildNamed(items, i + 1, 0, NameOf(items, c)) == Some(c) <==>
            NoneBefore(items, Children(f, i + 1), j, NameOf(items, c))
  {
    var c := Children(f, i + 1)[j];
    NamedIsChild(items, i + 1, f, NameOf(items, c));
    FirstMatching(items, i + 1, f, j, NameOf(items, c));
  }
}
