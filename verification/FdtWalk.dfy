/** The tag walks of lib/libfdt/fdt.c, fdt_ro.c and fdt_wip.c over any structure block, well formed or
    not: what they return, and exactly when they do not end. */
module FdtWalk {
  import opened Wrappers
  import opened FdtFormat
  import opened FdtBlob

  // ----- one tag -----

  lemma WrappedEnd(start: int, len: nat)
    requires 0 <= start < 0x8000_0000 && len < U32_SPAN
    ensures var e := Int32(start + 12 + len);
            && (e - start) % U32_SPAN == (12 + len) % U32_SPAN
            && (start + (12 + len) % U32_SPAN < 0x8000_0000 ==> e == start + (12 + len) % U32_SPAN)
  {
  }

  /** The name-skipping loop of `fdt_next_tag`: whether a NUL was found, and the offset behind it. */
  method SkipName(fdt: Blob, start: nat) returns (p: bool, offset: nat)
    requires fdt.InBuffer() && start <= fdt.size_dt_struct
    ensures p == (NameEnd(fdt.Struct(), start) < fdt.size_dt_struct)
    ensures offset == NameEnd(fdt.Struct(), start) + 1
  {
    ghost var s := fdt.Struct();
    offset := start;
    OffsetOkMeans(|s|, offset, 1);
    hide OffsetOk;
    p := OffsetOk(fdt.size_dt_struct, offset, 1);
    while p && fdt.buf[fdt.off_dt_struct + offset] != 0
      invariant start <= offset <= |s| && p == (offset < |s|)
      invariant NameEnd(s, start) == NameEnd(s, offset)
      decreases |s| - offset
    {
      offset := offset + 1;
      OffsetOkMeans(|s|, offset, 1);
      p := OffsetOk(fdt.size_dt_struct, offset, 1);
    }
    offset := offset + 1;
  }

  lemma NextTagCases(s: seq<byte>, start: int)
    requires |s| <= MAX_STRUCT && -0x8000_0000 <= start < 0x8000_0000
    ensures !OffsetOk(|s|, start, FDT_TAGSIZE) ==> NextTag(s, start) == Tag(FDT_END, -FDT_ERR_TRUNCATED)
    ensures OffsetOk(|s|, start, FDT_TAGSIZE) ==>
              && 0 <= start && start + 4 <= |s|
              && var n := ItemLen(s, start);
                 NextTag(s, start) == if n == None || !OffsetOk(|s|, start, n.value) then Tag(FDT_END, -FDT_ERR_BADSTRUCTURE)
                                      else Tag(U32(s, start), Align(start + n.value))
  {
    OffsetOkMeans(|s|, start, FDT_TAGSIZE);
  }

  /** `fdt_next_tag`. */
  method ReadTag(fdt: Blob, start: int) returns (tag: nat, next: int)
    requires fdt.InBuffer() && fdt.version >= 17 && -0x8000_0000 <= start < 0x8000_0000
    ensures Tag(tag, next) == NextTag(fdt.Struct(), start)
  {
    hide U32, OffsetOk, Int32, Align, NextTag;
    ghost var s := fdt.Struct();
    NextTagCases(s, start);
    OffsetOkMeans(|s|, start, FDT_TAGSIZE);
    next := -FDT_ERR_TRUNCATED;
    if !OffsetOk(fdt.size_dt_struct, start, FDT_TAGSIZE) {
      return FDT_END, next;
    }
    tag := fdt.Word(start);
    var offset: int := start + FDT_TAGSIZE;
    next := -FDT_ERR_BADSTRUCTURE;
    if tag == FDT_BEGIN_NODE {
      var p: bool;
      p, offset := SkipName(fdt, offset);
      if !p {
        return FDT_END, next;
      }
    } else if tag == FDT_PROP {
      OffsetOkMeans(|s|, offset, 4);
      if !OffsetOk(fdt.size_dt_struct, offset, 4) {
        return FDT_END, next;
      }
      WrappedEnd(start, fdt.Word(offset));
      offset := Int32(offset + 8 + fdt.Word(offset));
    } else if tag != FDT_END && tag != FDT_END_NODE && tag != FDT_NOP {
      return FDT_END, next;
    }
    ghost var len := ItemLen(s, start);
    assert len.Some? && len.value < U32_SPAN && (offset - start) % U32_SPAN == len.value;
    hide ItemLen;
    OffsetOkMeans(|s|, start, len.value);
    if !OffsetOk(fdt.size_dt_struct, start, (offset - start) % U32_SPAN) {
      return FDT_END, next;
    }
    assert offset == start + len.value;
    next := Align(offset);
  }

  // ----- from tag to tag -----

  /** A walk: under way at an offset, or stopped at a node's tag, behind the end tag that leaves the
      starting level, or for want of tags. */
  datatype TagWalk =
    | Going(offset: nat, depth: int)
    | AtNode(offset: nat, depth: int)
    | Left(offset: nat, depth: int)
    | Ended(code: int, depth: int)
  {
    /** What `fdt_next_node` returns for it. */
    function Code(): int {
      if Ended? then code else offset
    }
  }

  /** One turn of the loop of `fdt_next_node`; with `through`, nodes are entered and not stopped at. */
  function Turn(s: seq<byte>, o: nat, depth: int, through: bool): TagWalk
    requires |s| <= MAX_STRUCT && o < 0x8000_0000 && o % 4 == 0
  {
    NextTagProgress(s, o);
    var t := NextTag(s, o);
    if t.tag == FDT_BEGIN_NODE then (if through then Going(t.next, depth + 1) else AtNode(o, depth + 1))
    else if t.tag == FDT_END_NODE then (if depth - 1 < 0 then Left(t.next, depth - 1) else Going(t.next, depth - 1))
    else if t.tag == FDT_END then Ended(if t.next >= 0 then -FDT_ERR_NOTFOUND else t.next, depth)
    else Going(t.next, depth)
  }

  /** A turn goes on from a later tag, or from the same one exactly at a stuck property. */
  lemma TurnProgress(s: seq<byte>, o: nat, depth: int, through: bool)
    requires |s| <= MAX_STRUCT && o < 0x8000_0000 && o % 4 == 0
    ensures var w := Turn(s, o, depth, through);
            && (w.Going? ==> w.offset % 4 == 0 && o <= w.offset <= MAX_STRUCT && (w.offset == o <==> Stuck(s, o)))
            && (w.Going? && w.offset == o ==> w == Going(o, depth))
            && (w.AtNode? ==> w.offset == o && w.depth == depth + 1 && NextTag(s, o).tag == FDT_BEGIN_NODE)
            && (w.Left? ==> o < w.offset <= MAX_STRUCT && w.offset % 4 == 0 && w.depth == depth - 1 < 0)
            && (w.Ended? ==> w.depth == depth && w.code in {-FDT_ERR_NOTFOUND, -FDT_ERR_TRUNCATED, -FDT_ERR_BADSTRUCTURE})
            && (Stuck(s, o) ==> w == Going(o, depth))
  {
    NextTagProgress(s, o);
    hide NextTag, U32;
  }

  /** Where the walk stops; nowhere if it does not. */
  function WalkEnd(s: seq<byte>, o: nat, depth: int, through: bool): Option<TagWalk>
    requires |s| <= MAX_STRUCT && o <= MAX_STRUCT && o % 4 == 0
    decreases MAX_STRUCT - o
  {
    TurnProgress(s, o, depth, through);
    var w := Turn(s, o, depth, through);
    if !w.Going? then Some(w) else if w.offset == o then None else WalkEnd(s, w.offset, w.depth, through)
  }

  lemma WalkTurns(s: seq<byte>, o: nat, depth: int, through: bool)
    requires |s| <= MAX_STRUCT && o <= MAX_STRUCT && o % 4 == 0
    ensures var w := Turn(s, o, depth, through);
            && (!w.Going? ==> WalkEnd(s, o, depth, through) == Some(w))
            && (w.Going? && w.offset > o ==>
                  && w.offset <= MAX_STRUCT && w.offset % 4 == 0
                  && WalkEnd(s, o, depth, through) == WalkEnd(s, w.offset, w.depth, through))
  {
    hide Turn, Stuck;
    TurnProgress(s, o, depth, through);
  }

  /** The walk after `n` turns. */
  function After(s: seq<byte>, o: nat, depth: int, through: bool, n: nat): (w: TagWalk)
    requires |s| <= MAX_STRUCT && o <= MAX_STRUCT && o % 4 == 0
    ensures w.Going? ==> w.offset <= MAX_STRUCT && w.offset % 4 == 0
  {
    if n == 0 then Going(o, depth)
    else
      var w := After(s, o, depth, through, n - 1);
      if !w.Going? then w
      else
        TurnProgress(s, w.offset, w.depth, through);
        Turn(s, w.offset, w.depth, through)
  }

  /** The first turn may be taken first. */
  lemma {:induction false} AfterFirst(s: seq<byte>, o: nat, depth: int, through: bool, n: nat)
    requires |s| <= MAX_STRUCT && o <= MAX_STRUCT && o % 4 == 0 && Turn(s, o, depth, through).Going?
    ensures var w := Turn(s, o, depth, through);
            && w.offset <= MAX_STRUCT && w.offset % 4 == 0
            && After(s, o, depth, through, n + 1) == After(s, w.offset, w.depth, through, n)
  {
    hide Turn;
    TurnProgress(s, o, depth, through);
    if n > 0 {
      AfterFirst(s, o, depth, through, n - 1);
    } else {
      assert After(s, o, depth, through, 0) == Going(o, depth);
    }
  }

  /** A walk at a stuck property stays there for ever. */
  lemma {:induction false} StuckForEver(s: seq<byte>, o: nat, depth: int, through: bool, k: nat, n: nat)
    requires |s| <= MAX_STRUCT && o <= MAX_STRUCT && o % 4 == 0 && k <= n
    requires After(s, o, depth, through, k).Going? && Stuck(s, After(s, o, depth, through, k).offset)
    ensures After(s, o, depth, through, n) == After(s, o, depth, through, k)
    decreases n - k
  {
    hide Turn, Stuck;
    if k < n {
      var w := After(s, o, depth, through, k);
      StuckForEver(s, o, depth, through, k, n - 1);
      TurnProgress(s, w.offset, w.depth, through);
    }
  }

  /** A walk that stops does so after finitely many turns, where it is said to. */
  lemma {:induction false} WalkStops(s: seq<byte>, o: nat, depth: int, through: bool) returns (n: nat)
    requires |s| <= MAX_STRUCT && o <= MAX_STRUCT && o % 4 == 0 && WalkEnd(s, o, depth, through).Some?
    ensures After(s, o, depth, through, n) == WalkEnd(s, o, depth, through).value && !After(s, o, depth, through, n).Going?
    decreases MAX_STRUCT - o
  {
    hide Turn, Stuck;
    TurnProgress(s, o, depth, through);
    var w := Turn(s, o, depth, through);
    if w.Going? {
      n := WalkStops(s, w.offset, w.depth, through);
      AfterFirst(s, o, depth, through, n);
      n := n + 1;
    } else {
      n := 1;
      assert After(s, o, depth, through, 0) == Going(o, depth);
    }
  }

  /** A walk that does not stop comes to a stuck property. */
  lemma {:induction false} WalkSticks(s: seq<byte>, o: nat, depth: int, through: bool) returns (n: nat)
    requires |s| <= MAX_STRUCT && o <= MAX_STRUCT && o % 4 == 0 && WalkEnd(s, o, depth, through).None?
    ensures After(s, o, depth, through, n).Going? && Stuck(s, After(s, o, depth, through, n).offset)
    decreases MAX_STRUCT - o
  {
    hide Turn, Stuck;
    TurnProgress(s, o, depth, through);
    var w := Turn(s, o, depth, through);
    if w.offset == o {
      n := 0;
    } else {
      n := WalkSticks(s, w.offset, w.depth, through);
      AfterFirst(s, o, depth, through, n);
      n := n + 1;
    }
  }

  /** The walk reaches, before any tag that stops it, a property that `fdt_next_tag` does not pass. */
  ghost predicate ReachesStuck(s: seq<byte>, o: nat, depth: int, through: bool)
    requires |s| <= MAX_STRUCT && o <= MAX_STRUCT && o % 4 == 0
  {
    exists n: nat {:trigger After(s, o, depth, through, n)} ::
      After(s, o, depth, through, n).Going? && Stuck(s, After(s, o, depth, through, n).offset)
  }

  /** Exactly the walks that come to a stuck property before they stop go on for ever. */
  lemma WalkForEver(s: seq<byte>, o: nat, depth: int, through: bool)
    requires |s| <= MAX_STRUCT && o <= MAX_STRUCT && o % 4 == 0
    ensures WalkEnd(s, o, depth, through).None? <==> ReachesStuck(s, o, depth, through)
    ensures WalkEnd(s, o, depth, through).None? <==>
            forall n: nat {:trigger After(s, o, depth, through, n)} :: After(s, o, depth, through, n).Going?
  {
    hide Turn, Stuck, WalkEnd, After;
    if WalkEnd(s, o, depth, through).None? {
      var k := WalkSticks(s, o, depth, through);
      forall n: nat ensures After(s, o, depth, through, n).Going? {
        if n <= k {
          StoppedStays(s, o, depth, through, n, k);
        } else {
          StuckForEver(s, o, depth, through, k, n);
        }
      }
    } else {
      var m := WalkStops(s, o, depth, through);
      forall n: nat | After(s, o, depth, through, n).Going? ensures !Stuck(s, After(s, o, depth, through, n).offset) {
        if m <= n {
          StoppedStays(s, o, depth, through, m, n);
        } else if Stuck(s, After(s, o, depth, through, n).offset) {
          StuckForEver(s, o, depth, through, n, m);
        }
      }
    }
  }

  lemma {:induction false} StoppedStays(s: seq<byte>, o: nat, depth: int, through: bool, m: nat, n: nat)
    requires |s| <= MAX_STRUCT && o <= MAX_STRUCT && o % 4 == 0 && m <= n
    ensures !After(s, o, depth, through, m).Going? ==> After(s, o, depth, through, n) == After(s, o, depth, through, m)
    decreases n - m
  {
    hide Turn;
    if m < n {
      StoppedStays(s, o, depth, through, m, n - 1);
    }
  }

  // ----- fdt_next_node -----

  /** `_fdt_check_node_offset`. */
  function NodeCode(s: seq<byte>, offset: int): int
    requires |s| <= MAX_STRUCT && -0x8000_0000 <= offset < 0x8000_0000
  {
    if offset >= 0 && offset % 4 == 0 && NextTag(s, offset).tag == FDT_BEGIN_NODE then NextTag(s, offset).next
    else -FDT_ERR_BADOFFSET
  }

  lemma NodeCodeProgress(s: seq<byte>, offset: int)
    requires |s| <= MAX_STRUCT && -0x8000_0000 <= offset < 0x8000_0000
    ensures var c := NodeCode(s, offset); c == -FDT_ERR_BADOFFSET || (0 <= offset < c <= MAX_STRUCT && c % 4 == 0)
  {
    if offset >= 0 && offset % 4 == 0 {
      NextTagProgress(s, offset);
      hide NextTag, U32;
    }
  }

  /** `_fdt_check_node_offset` of any offset: behind the node's tag, or BADOFFSET. */
  method CheckNodeTag(fdt: Blob, offset: int) returns (r: int)
    requires fdt.InBuffer() && fdt.version >= 17 && -0x8000_0000 <= offset < 0x8000_0000
    ensures r == NodeCode(fdt.Struct(), offset)
  {
    hide NextTag;
    if offset < 0 || offset % FDT_TAGSIZE != 0 {
      return -FDT_ERR_BADOFFSET;
    }
    var tag, next := ReadTag(fdt, offset);
    if tag != FDT_BEGIN_NODE {
      return -FDT_ERR_BADOFFSET;
    }
    return next;
  }

  /** What `fdt_next_node` returns, and the depth it leaves; nothing when it does not return. */
  function NodeWalk(s: seq<byte>, offset: int, depth: int): (r: Option<(int, int)>)
    requires |s| <= MAX_STRUCT && -0x8000_0000 <= offset < 0x8000_0000
  {
    NodeCodeProgress(s, offset);
    if offset >= 0 && NodeCode(s, offset) < 0 then Some((-FDT_ERR_BADOFFSET, depth))
    else
      var w := WalkEnd(s, if offset < 0 then 0 else NodeCode(s, offset), depth, false);
      if w.None? then None else Some((w.value.Code(), w.value.depth))
  }

  /** A walk for want of tags ends at FDT_END, with NOTFOUND, or where there is no tag to read, with the
      tag reader's error. */
  lemma {:induction false} EndedMeans(s: seq<byte>, o: nat, depth: int, through: bool) returns (p: nat)
    requires |s| <= MAX_STRUCT && o <= MAX_STRUCT && o % 4 == 0
    requires WalkEnd(s, o, depth, through).Some? && WalkEnd(s, o, depth, through).value.Ended?
    ensures o <= p <= MAX_STRUCT && NextTag(s, p).tag == FDT_END
    ensures WalkEnd(s, o, depth, through).value.code == if NextTag(s, p).next >= 0 then -FDT_ERR_NOTFOUND else NextTag(s, p).next
    decreases MAX_STRUCT - o
  {
    TurnProgress(s, o, depth, through);
    var w := Turn(s, o, depth, through);
    if w.Going? {
      hide NextTag, Turn;
      p := EndedMeans(s, w.offset, w.depth, through);
    } else {
      p := o;
      hide NextTag;
    }
  }

  /** Where a walk stops: at a later node, behind a later end tag, or with one of three errors. */
  lemma {:induction false} WalkEndsAt(s: seq<byte>, o: nat, depth: int, through: bool)
    requires |s| <= MAX_STRUCT && o <= MAX_STRUCT && o % 4 == 0 && WalkEnd(s, o, depth, through).Some?
    ensures var w := WalkEnd(s, o, depth, through).value;
            && !w.Going? && (w.AtNode? ==> !through)
            && (w.AtNode? ==> o <= w.offset <= MAX_STRUCT && w.offset % 4 == 0 && NextTag(s, w.offset).tag == FDT_BEGIN_NODE)
            && (w.AtNode? && depth >= 0 ==> w.depth >= 1)
            && (w.Left? ==> o < w.offset <= MAX_STRUCT && w.offset % 4 == 0 && w.depth < 0)
            && (w.Ended? ==> w.code in {-FDT_ERR_NOTFOUND, -FDT_ERR_TRUNCATED, -FDT_ERR_BADSTRUCTURE})
            && (w.Ended? && depth >= 0 ==> w.depth >= 0)
    decreases MAX_STRUCT - o
  {
    hide NextTag, Stuck;
    TurnProgress(s, o, depth, through);
    var w := Turn(s, o, depth, through);
    if w.Going? {
      WalkEndsAt(s, w.offset, w.depth, through);
    }
  }

  /** On every block and from every offset, `fdt_next_node` returns a later offset or an error. */
  lemma NodeWalkProgress(s: seq<byte>, offset: int, depth: int)
    requires |s| <= MAX_STRUCT && -0x8000_0000 <= offset < 0x8000_0000 && NodeWalk(s, offset, depth).Some?
    ensures var (r, d) := NodeWalk(s, offset, depth).value;
            && (r >= 0 ==> offset < r <= MAX_STRUCT && r % 4 == 0)
            && (r < 0 ==> r in {-FDT_ERR_BADOFFSET, -FDT_ERR_NOTFOUND, -FDT_ERR_TRUNCATED, -FDT_ERR_BADSTRUCTURE})
            && (r >= 0 && d >= 0 && depth >= 0 ==> d >= 1 && NextTag(s, r).tag == FDT_BEGIN_NODE)
            && (r < 0 && depth >= 0 ==> d >= 0)
  {
    hide NextTag, WalkEnd;
    NodeCodeProgress(s, offset);
    if offset < 0 || NodeCode(s, offset) >= 0 {
      WalkEndsAt(s, if offset < 0 then 0 else NodeCode(s, offset), depth, false);
    }
  }

  /** `fdt_next_node` with a depth counter, on every block and from every offset from which it ends. */
  method WalkNode(fdt: Blob, offset0: int, depth0: int) returns (r: int, depth: int)
    requires fdt.InBuffer() && fdt.version >= 17 && -0x8000_0000 <= offset0 < 0x8000_0000
    requires NodeWalk(fdt.Struct(), offset0, depth0).Some?
    ensures NodeWalk(fdt.Struct(), offset0, depth0) == Some((r, depth))
  {
    hide NextTag, Stuck;
    ghost var s := fdt.Struct();
    depth := depth0;
    NodeCodeProgress(s, offset0);
    var next := 0;
    if offset0 >= 0 {
      next := CheckNodeTag(fdt, offset0);
      if next < 0 {
        return next, depth;
      }
    }
    ghost var w := WalkEnd(s, next, depth, false);
    hide NodeWalk, NodeCode;
    while true
      invariant 0 <= next <= MAX_STRUCT && next % 4 == 0 && w == WalkEnd(s, next, depth, false)
      decreases MAX_STRUCT - next
    {
      var offset := next;
      TurnProgress(s, offset, depth, false);
      var tag: nat;
      tag, next := ReadTag(fdt, offset);
      if tag == FDT_BEGIN_NODE {
        depth := depth + 1;
        return offset, depth;
      } else if tag == FDT_END_NODE {
        depth := depth - 1;
        if depth < 0 {
          return next, depth;
        }
      } else if tag == FDT_END {
        return if next >= 0 then -FDT_ERR_NOTFOUND else next, depth;
      }
    }
  }

  // ----- _fdt_node_end_offset -----

  /** What repeating `fdt_next_node` until the level is left comes to. */
  function EndWalk(s: seq<byte>, offset: int, depth: int): Option<int>
    requires |s| <= MAX_STRUCT && -0x8000_0000 <= offset < 0x8000_0000
    decreases 0x8000_0000 - offset
  {
    if offset < 0 || depth < 0 then Some(offset)
    else
      var w := NodeWalk(s, offset, depth);
      if w.None? then None
      else
        NodeWalkProgress(s, offset, depth);
        var (r, d) := w.value;
        if r < 0 || d < 0 then Some(r) else EndWalk(s, r, d)
  }

  /** `_fdt_node_end_offset`, on every block and from every offset from which it ends. */
  method WalkToEnd(fdt: Blob, offset0: int) returns (r: int)
    requires fdt.InBuffer() && fdt.version >= 17 && -0x8000_0000 <= offset0 < 0x8000_0000
    requires EndWalk(fdt.Struct(), offset0, 0).Some?
    ensures EndWalk(fdt.Struct(), offset0, 0) == Some(r)
  {
    hide NextTag, NodeWalk;
    ghost var s := fdt.Struct();
    r := offset0;
    var depth := 0;
    while r >= 0 && depth >= 0
      invariant -0x8000_0000 <= r < 0x8000_0000 && EndWalk(s, r, depth) == EndWalk(s, offset0, 0)
      decreases if r >= 0 && depth >= 0 then 0x8000_0000 - r else 0
    {
      NodeWalkProgress(s, r, depth);
      r, depth := WalkNode(fdt, r, depth);
    }
  }

  /** Going from node to node is going through the tags. */
  lemma {:induction false} ThroughNode(s: seq<byte>, o: nat, depth: nat)
    requires |s| <= MAX_STRUCT && o <= MAX_STRUCT && o % 4 == 0
    ensures var w, v := WalkEnd(s, o, depth, false), WalkEnd(s, o, depth, true);
            if w.None? || !w.value.AtNode? then v == w
            else
              && w.value.offset <= MAX_STRUCT && NodeCode(s, w.value.offset) >= 0
              && NodeCode(s, w.value.offset) <= MAX_STRUCT && NodeCode(s, w.value.offset) % 4 == 0
              && v == WalkEnd(s, NodeCode(s, w.value.offset), w.value.depth, true)
    decreases MAX_STRUCT - o
  {
    hide NextTag, Stuck;
    TurnProgress(s, o, depth, false);
    TurnProgress(s, o, depth, true);
    NodeCodeProgress(s, o);
    var w := Turn(s, o, depth, false);
    if w.Going? && w.offset > o {
      ThroughNode(s, w.offset, w.depth);
    }
  }

  /** `_fdt_node_end_offset` of a node passes every tag from the node's own on, until its level is left
      or a tag stops it; of any other offset it is an error. */
  lemma {:induction false} EndWalkIs(s: seq<byte>, offset: nat, depth: nat)
    requires |s| <= MAX_STRUCT && offset < 0x8000_0000
    ensures NodeCode(s, offset) < 0 ==> EndWalk(s, offset, depth) == Some(-FDT_ERR_BADOFFSET)
    ensures NodeCode(s, offset) >= 0 ==>
              && NodeCode(s, offset) <= MAX_STRUCT && NodeCode(s, offset) % 4 == 0
              && var w := WalkEnd(s, NodeCode(s, offset), depth, true);
                 EndWalk(s, offset, depth) == if w.None? then None else Some(w.value.Code())
    decreases 0x8000_0000 - offset
  {
    hide NextTag, WalkEnd;
    NodeCodeProgress(s, offset);
    var c := NodeCode(s, offset);
    if c >= 0 {
      ThroughNode(s, c, depth);
      if NodeWalk(s, offset, depth).Some? {
        WalkEndsAt(s, c, depth, false);
        var w := WalkEnd(s, c, depth, false).value;
        if w.AtNode? {
          EndWalkIs(s, w.offset, w.depth);
        }
      }
    }
  }

  // ----- whether they end -----

  /** No aligned offset holds a property that `fdt_next_tag` does not pass. */
  ghost predicate NothingStuck(s: seq<byte>) {
    forall o: nat {:trigger Stuck(s, o)} :: o % 4 == 0 ==> !Stuck(s, o)
  }

  /** `fdt_next_node` runs for ever exactly when the tags behind the node, or from the start, lead to a
      stuck property before one that stops it. */
  lemma NodeWalkForEver(s: seq<byte>, offset: int, depth: int)
    requires |s| <= MAX_STRUCT && -0x8000_0000 <= offset < 0x8000_0000
    ensures offset >= 0 && NodeCode(s, offset) < 0 ==> NodeWalk(s, offset, depth).Some?
    ensures offset < 0 ==> (NodeWalk(s, offset, depth).None? <==> ReachesStuck(s, 0, depth, false))
    ensures offset >= 0 && NodeCode(s, offset) >= 0 ==>
              && NodeCode(s, offset) <= MAX_STRUCT && NodeCode(s, offset) % 4 == 0
              && (NodeWalk(s, offset, depth).None? <==> ReachesStuck(s, NodeCode(s, offset), depth, false))
  {
    hide NextTag, WalkEnd, ReachesStuck;
    NodeCodeProgress(s, offset);
    if offset < 0 {
      WalkForEver(s, 0, depth, false);
    } else if NodeCode(s, offset) >= 0 {
      WalkForEver(s, NodeCode(s, offset), depth, false);
    }
  }

  /** So does `_fdt_node_end_offset`, with tags of nodes passed as well. */
  lemma EndWalkForEver(s: seq<byte>, offset: int)
    requires |s| <= MAX_STRUCT && -0x8000_0000 <= offset < 0x8000_0000
    ensures NodeCode(s, offset) < 0 ==> EndWalk(s, offset, 0).Some?
    ensures NodeCode(s, offset) >= 0 ==>
              && NodeCode(s, offset) <= MAX_STRUCT && NodeCode(s, offset) % 4 == 0
              && (EndWalk(s, offset, 0).None? <==> ReachesStuck(s, NodeCode(s, offset), 0, true))
  {
    hide NextTag, WalkEnd, ReachesStuck, NodeCode;
    NodeCodeProgress(s, offset);
    if offset >= 0 {
      EndWalkIs(s, offset, 0);
      if NodeCode(s, offset) >= 0 {
        WalkForEver(s, NodeCode(s, offset), 0, true);
      }
    }
  }

  /** On a block with nothing stuck, both end from every offset. */
  lemma WalksEnd(s: seq<byte>, offset: int, depth: int)
    requires |s| <= MAX_STRUCT && -0x8000_0000 <= offset < 0x8000_0000 && NothingStuck(s)
    ensures NodeWalk(s, offset, depth).Some? && EndWalk(s, offset, 0).Some?
  {
    hide NextTag, Stuck, NodeCode, NodeWalk, EndWalk;
    NodeWalkForEver(s, offset, depth);
    EndWalkForEver(s, offset);
  }

  // ----- _nextprop -----

  /** What `_nextprop` returns. */
  function PropWalk(s: seq<byte>, offset: int): int
    requires |s| <= MAX_STRUCT && -0x8000_0000 <= offset < 0x8000_0000
    decreases MAX_STRUCT - offset
  {
    var t := NextTag(s, offset);
    if t.tag == FDT_END then (if t.next >= 0 then -FDT_ERR_BADSTRUCTURE else t.next)
    else if t.tag == FDT_PROP then offset
    else if t.tag == FDT_NOP then
      NopProgress(s, offset);
      PropWalk(s, t.next)
    else -FDT_ERR_NOTFOUND
  }

  lemma NopProgress(s: seq<byte>, offset: int)
    requires |s| <= MAX_STRUCT && -0x8000_0000 <= offset < 0x8000_0000 && NextTag(s, offset).tag == FDT_NOP
    ensures 0 <= offset < NextTag(s, offset).next <= MAX_STRUCT
  {
    hide U32, OffsetOk;
    OffsetOkMeans(|s|, offset, FDT_TAGSIZE);
    OffsetOkMeans(|s|, offset, 4);
  }

  /** `_nextprop`, which ends on every block and from every offset: a stuck property stops it too. */
  method WalkProp(fdt: Blob, offset0: int) returns (r: int)
    requires fdt.InBuffer() && fdt.version >= 17 && -0x8000_0000 <= offset0 < 0x8000_0000
    ensures r == PropWalk(fdt.Struct(), offset0)
  {
    hide NextTag;
    ghost var s := fdt.Struct();
    var offset := offset0;
    while true
      invariant -0x8000_0000 <= offset < 0x8000_0000 && PropWalk(s, offset) == PropWalk(s, offset0)
      decreases MAX_STRUCT - offset
    {
      var tag, next := ReadTag(fdt, offset);
      if tag == FDT_END {
        return if next >= 0 then -FDT_ERR_BADSTRUCTURE else next;
      } else if tag == FDT_PROP {
        return offset;
      }
      if tag != FDT_NOP {
        return -FDT_ERR_NOTFOUND;
      }
      NopProgress(s, offset);
      offset := next;
    }
  }

  /** From `o`, stepping over NOPs alone leads to `p`. */
  predicate NopsTo(s: seq<byte>, o: int, p: int)
    requires |s| <= MAX_STRUCT && -0x8000_0000 <= o < 0x8000_0000
    decreases MAX_STRUCT - o
  {
    if NextTag(s, o).tag == FDT_NOP then
      NopProgress(s, o);
      NopsTo(s, NextTag(s, o).next, p)
    else o == p
  }

  /** On every block: the first tag behind NOPs decides, and a property is returned only if it is one. */
  lemma {:induction false} PropWalkIs(s: seq<byte>, offset: int) returns (p: int)
    requires |s| <= MAX_STRUCT && -0x8000_0000 <= offset < 0x8000_0000
    ensures offset <= p < 0x8000_0000 && NopsTo(s, offset, p) && NextTag(s, p).tag != FDT_NOP
    ensures var t := NextTag(s, p);
            PropWalk(s, offset) == if t.tag == FDT_PROP then p
                                   else if t.tag != FDT_END then -FDT_ERR_NOTFOUND
                                   else if t.next >= 0 then -FDT_ERR_BADSTRUCTURE else t.next
    decreases MAX_STRUCT - offset
  {
    hide NextTag;
    if NextTag(s, offset).tag == FDT_NOP {
      NopProgress(s, offset);
      p := PropWalkIs(s, NextTag(s, offset).next);
    } else {
      p := offset;
    }
  }

  // ----- an example -----

  /** The shortest block on which a walk does not end: one property, with the length that brings
      `fdt_next_tag` back to it. */
  function StuckBlock(): (s: seq<byte>)
    ensures |s| == 12
  {
    Put32(FDT_PROP) + Put32(U32_SPAN - 12) + Put32(0)
  }

  lemma StuckBlockSticks()
    ensures NextTag(StuckBlock(), 0) == Tag(FDT_PROP, 0)
    ensures NodeWalk(StuckBlock(), -1, 0).None?
  {
    var s := StuckBlock();
    hide U16;
    U32Within(s, Put32(FDT_PROP), 0, 0);
    U32Within(s, Put32(U32_SPAN - 12), 4, 0);
    assert Stuck(s, 0);
    hide U32, Put32, NextTag;
    NextTagProgress(s, 0);
    TurnProgress(s, 0, 0, false);
  }
}
