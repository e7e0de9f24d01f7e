/** The in-place editor of lib/libfdt/fdt_rw.c. */
module FdtEdit {
  import opened Wrappers
  import opened FdtFormat
  import opened FdtBlob
  import opened FdtWalk
  import opened FdtTraverse
  import opened FdtStrings
  import opened FdtRead
  import opened FdtWrite

  const RW_RSVMAP_MIN := 40

  /** The blocks stand in order, the strings last. */
  predicate Ordered(fdt: Blob)
    reads fdt
  {
    && RW_RSVMAP_MIN <= fdt.off_mem_rsvmap
    && fdt.off_mem_rsvmap + RESERVE_ENTRY_SIZE <= fdt.off_dt_struct
    && fdt.off_dt_struct + fdt.size_dt_struct <= fdt.off_dt_strings
    && fdt.off_dt_strings + fdt.size_dt_strings <= fdt.totalsize
  }

  /** `_fdt_blocks_misordered` with one reservation entry, as `_fdt_rw_check_header` asks, in 32-bit
      arithmetic. */
  predicate Misordered(fdt: Blob)
    reads fdt
  {
    || fdt.off_mem_rsvmap < RW_RSVMAP_MIN
    || fdt.off_dt_struct < (fdt.off_mem_rsvmap + RESERVE_ENTRY_SIZE) % U32_SPAN
    || fdt.off_dt_strings < (fdt.off_dt_struct + fdt.size_dt_struct) % U32_SPAN
    || fdt.totalsize < (fdt.off_dt_strings + fdt.size_dt_strings) % U32_SPAN
  }

  /** `fdt_check_header`. */
  function CheckHeader(fdt: Blob): int
    reads fdt
  {
    if fdt.magic == FDT_MAGIC then
      if fdt.version < FDT_FIRST_SUPPORTED_VERSION then -FDT_ERR_BADVERSION
      else if fdt.last_comp_version > FDT_LAST_SUPPORTED_VERSION then -FDT_ERR_BADVERSION
      else 0
    else if fdt.magic == FDT_SW_MAGIC then
      if fdt.size_dt_struct == 0 then -FDT_ERR_BADSTATE else 0
    else -FDT_ERR_BADMAGIC
  }

  /** What `_fdt_rw_check_header` returns. */
  function RwCode(fdt: Blob): int
    reads fdt
  {
    if CheckHeader(fdt) != 0 then CheckHeader(fdt)
    else if fdt.version < 17 then -FDT_ERR_BADVERSION
    else if Misordered(fdt) then -FDT_ERR_BADLAYOUT
    else 0
  }

  /** `_fdt_rw_check_header`. */
  method RwCheckHeader(fdt: Blob) returns (r: int)
    modifies fdt`version
    ensures r == old(RwCode(fdt))
    ensures r == -FDT_ERR_BADMAGIC <==> fdt.magic != FDT_MAGIC && fdt.magic != FDT_SW_MAGIC
    ensures r == -FDT_ERR_BADSTATE <==> fdt.magic == FDT_SW_MAGIC && fdt.size_dt_struct == 0
    ensures r == -FDT_ERR_BADVERSION <==>
            || (fdt.magic == FDT_MAGIC && (old(fdt.version) < 17 || fdt.last_comp_version > 17))
            || (fdt.magic == FDT_SW_MAGIC && fdt.size_dt_struct != 0 && old(fdt.version) < 17)
    ensures r in {0, -FDT_ERR_BADMAGIC, -FDT_ERR_BADSTATE, -FDT_ERR_BADVERSION, -FDT_ERR_BADLAYOUT}
    ensures old(fdt.InBuffer()) && fdt.off_mem_rsvmap <= fdt.buf.Length ==>
              (r == 0 ==> old(Ordered(fdt))) && (r == -FDT_ERR_BADLAYOUT ==> !old(Ordered(fdt)))
    ensures fdt.version == if r == 0 then 17 else old(fdt.version)
    ensures old(fdt.InBuffer()) ==> fdt.InBuffer() && fdt.Struct() == old(fdt.Struct()) && fdt.Strings() == old(fdt.Strings())
  {
    r := RwCode(fdt);
    if r == 0 && fdt.version > 17 {
      fdt.version := 17;
    }
  }

  /** A finished blob in its buffer that passes the checks of the editor. */
  ghost predicate Ready(fdt: Blob)
    reads fdt
  {
    && fdt.InBuffer() && fdt.magic == FDT_MAGIC && fdt.version >= 17
    && fdt.last_comp_version <= FDT_LAST_SUPPORTED_VERSION && Ordered(fdt)
  }

  lemma ReadyPasses(fdt: Blob)
    requires fdt.InBuffer() && fdt.off_mem_rsvmap <= fdt.buf.Length && fdt.magic == FDT_MAGIC
    ensures Ready(fdt) <==> RwCode(fdt) == 0
  {
  }

  /** Such a blob holding the items. */
  ghost predicate Editable(fdt: Blob, items: seq<Item>)
    reads fdt, fdt.buf
  {
    Ready(fdt) && HoldsNamed(fdt, items)
  }

  /** The header apart from what an edit may change. */
  twostate predicate HeaderKept(fdt: Blob)
    reads fdt
  {
    && fdt.magic == old(fdt.magic) && fdt.version == old(fdt.version) && fdt.last_comp_version == old(fdt.last_comp_version)
    && fdt.totalsize == old(fdt.totalsize)
    && fdt.off_mem_rsvmap == old(fdt.off_mem_rsvmap) && fdt.off_dt_struct == old(fdt.off_dt_struct)
  }

  // ----- splicing -----

  /** `_fdt_data_size`. */
  function DataSize(fdt: Blob): nat
    reads fdt
  {
    fdt.off_dt_strings + fdt.size_dt_strings
  }

  /** `_fdt_splice` at the buffer position `p`. */
  method Splice(fdt: Blob, p: nat, oldlen: nat, newlen: nat) returns (r: int)
    requires DataSize(fdt) <= fdt.totalsize <= fdt.buf.Length
    modifies fdt.buf
    ensures r == if p + oldlen > DataSize(fdt) then -FDT_ERR_BADOFFSET
                 else if DataSize(fdt) - oldlen + newlen > fdt.totalsize then -FDT_ERR_NOSPACE else 0
    ensures r != 0 ==> fdt.Bytes() == old(fdt.Bytes())
    ensures r == 0 ==>
              && fdt.Bytes()[..p + newlen] == old(fdt.Bytes())[..p + newlen]
              && fdt.Bytes()[p + newlen..DataSize(fdt) - oldlen + newlen] == old(fdt.Bytes())[p + oldlen..DataSize(fdt)]
  {
    var end := DataSize(fdt);
    if p + oldlen > end {
      return -FDT_ERR_BADOFFSET;
    }
    if end - oldlen + newlen > fdt.totalsize {
      return -FDT_ERR_NOSPACE;
    }
    MemMove(fdt.buf, p + newlen, p + oldlen, end - p - oldlen);
    return 0;
  }

  /** The bytes before the structure block stay, also in the header's own view of them. */
  twostate predicate FrontKept(fdt: Blob)
    requires old(fdt.off_dt_struct) <= fdt.buf.Length
    reads fdt, fdt.buf
  {
    fdt.Bytes()[..old(fdt.off_dt_struct)] == old(fdt.Bytes())[..old(fdt.off_dt_struct)]
  }

  /** `_fdt_splice_struct` at offset `o` of the structure block. */
  method SpliceStruct(fdt: Blob, o: nat, oldlen: nat, newlen: nat) returns (r: int)
    requires Ready(fdt) && o + oldlen <= fdt.size_dt_struct
    modifies fdt`size_dt_struct, fdt`off_dt_strings, fdt.buf
    ensures r == if old(DataSize(fdt)) - oldlen + newlen > fdt.totalsize then -FDT_ERR_NOSPACE else 0
    ensures HeaderKept(fdt) && Ready(fdt) && FrontKept(fdt)
    ensures fdt.Strings() == old(fdt.Strings())
    ensures r != 0 ==> fdt.Struct() == old(fdt.Struct()) && fdt.off_dt_strings == old(fdt.off_dt_strings)
    ensures r == 0 ==>
              && fdt.size_dt_struct == old(fdt.size_dt_struct) - oldlen + newlen
              && fdt.off_dt_strings == old(fdt.off_dt_strings) - oldlen + newlen
              && fdt.Struct()[..o] == old(fdt.Struct())[..o]
              && fdt.Struct()[o + newlen..] == old(fdt.Struct())[o + oldlen..]
  {
    hide Blob.Bytes, Blob.Struct, Blob.Strings;
    ghost var b, s, t := fdt.Bytes(), fdt.Struct(), fdt.Strings();
    ghost var n, end := fdt.size_dt_struct, DataSize(fdt);
    BlobViews(fdt);
    r := Splice(fdt, fdt.off_dt_struct + o, oldlen, newlen);
    if r == 0 {
      fdt.size_dt_struct := fdt.size_dt_struct + newlen - oldlen;
      fdt.off_dt_strings := fdt.off_dt_strings + newlen - oldlen;
      SpliceView(fdt, b, s, t, n, end, o, oldlen, newlen);
    } else {
      BlobViews(fdt);
    }
  }

  /** The splice of the bytes `b` as seen from the blocks, which were `s` and `t`. */
  lemma SpliceView(fdt: Blob, b: seq<byte>, s: seq<byte>, t: seq<byte>, n: nat, end: nat, o: nat, oldlen: nat, newlen: nat)
    requires Ready(fdt) && |b| == fdt.buf.Length && o + oldlen <= n && fdt.size_dt_struct == n - oldlen + newlen
    requires fdt.off_dt_struct + n + |t| <= end <= |b| && |t| == fdt.size_dt_strings && DataSize(fdt) == end - oldlen + newlen
    requires s == b[fdt.off_dt_struct..fdt.off_dt_struct + n] && t == b[end - |t|..end]
    requires var p, c := fdt.off_dt_struct + o, fdt.Bytes();
             c[..p + newlen] == b[..p + newlen] && c[p + newlen..DataSize(fdt)] == b[p + oldlen..end]
    ensures fdt.Struct()[..o] == s[..o] && fdt.Struct()[o + newlen..] == s[o + oldlen..]
    ensures fdt.Strings() == t && fdt.Bytes()[..fdt.off_dt_struct] == b[..fdt.off_dt_struct]
  {
    hide Blob.Bytes, Blob.Struct, Blob.Strings;
    BlobViews(fdt);
    SplicedBlocks(b, fdt.Bytes(), fdt.off_dt_struct, n, fdt.size_dt_struct, fdt.off_dt_strings, fdt.size_dt_strings, end, o, oldlen, newlen);
  }

  lemma SplicedBlocks(b: seq<byte>, c: seq<byte>, lo: nat, n: nat, m: nat, so: nat, sn: nat, end: nat, o: nat, oldlen: nat, newlen: nat)
    requires |b| == |c| && o + oldlen <= n && m == n - oldlen + newlen && lo + m <= so && so + sn == end - oldlen + newlen <= |b|
    requires lo + n <= end - sn && end <= |b|
    requires c[..lo + o + newlen] == b[..lo + o + newlen]
    requires c[lo + o + newlen..end - oldlen + newlen] == b[lo + o + oldlen..end]
    ensures c[lo..lo + m][..o] == b[lo..lo + n][..o]
    ensures c[lo..lo + m][o + newlen..] == b[lo..lo + n][o + oldlen..]
    ensures c[so..so + sn] == b[end - sn..end]
    ensures c[..lo] == b[..lo]
  {
    var p, q := lo + o + newlen, lo + o + oldlen;
    PutFront(b, c, p, lo, n, m, o);
    SplicedBehind(b, c, p, q, end, lo, n, m, o, oldlen, newlen);
    SplicedStrings(b, c, p, q, end, so, sn);
  }

  lemma PutFront(b: seq<byte>, c: seq<byte>, p: nat, lo: nat, n: nat, m: nat, o: nat)
    requires |b| == |c| && o <= n && o <= m && lo + o <= p <= |b| && lo + n <= |b| && lo + m <= |b|
    requires c[..p] == b[..p]
    ensures c[lo..lo + m][..o] == b[lo..lo + n][..o] && c[..lo] == b[..lo]
  {
    SliceOfSlice(c, lo, lo + m, 0, o);
    SliceOfSlice(b, lo, lo + n, 0, o);
    KeptBelow(b, c, p, lo, lo + o);
    KeptBelow(b, c, p, 0, lo);
  }

  lemma SplicedBehind(b: seq<byte>, c: seq<byte>, p: nat, q: nat, end: nat, lo: nat, n: nat, m: nat, o: nat, oldlen: nat, newlen: nat)
    requires |b| == |c| && q <= end <= |b| && p + (end - q) <= |b| && c[p..p + (end - q)] == b[q..end]
    requires o + oldlen <= n && m == n - oldlen + newlen && lo + n <= end && p == lo + o + newlen && q == lo + o + oldlen
    ensures lo + m <= |b| && c[lo..lo + m][o + newlen..] == b[lo..lo + n][o + oldlen..]
  {
    SubSlice(b, q, c, p, end - q, 0, lo + n - q);
    SliceOfSlice(c, lo, lo + m, o + newlen, m);
    SliceOfSlice(b, lo, lo + n, o + oldlen, n);
  }

  lemma SplicedStrings(b: seq<byte>, c: seq<byte>, p: nat, q: nat, end: nat, so: nat, sn: nat)
    requires |b| == |c| && q <= end <= |b| && p + (end - q) <= |b| && c[p..p + (end - q)] == b[q..end]
    requires sn <= end - q && so + sn == p + (end - q)
    ensures c[so..so + sn] == b[end - sn..end]
  {
    SubSlice(b, q, c, p, end - q, end - sn - q, end - q);
  }

  /** `_fdt_splice_string` and the copy of the new string behind the strings block. */
  method AppendString(fdt: Blob, name: seq<byte>) returns (r: int)
    requires Ready(fdt)
    modifies fdt`size_dt_strings, fdt.buf
    ensures r == if old(DataSize(fdt)) + |name| + 1 > fdt.totalsize then -FDT_ERR_NOSPACE else 0
    ensures HeaderKept(fdt) && Ready(fdt) && FrontKept(fdt)
    ensures fdt.Struct() == old(fdt.Struct())
    ensures fdt.Strings() == if r == 0 then old(fdt.Strings()) + CString(name) else old(fdt.Strings())
  {
    hide Blob.Bytes, Blob.Struct, Blob.Strings, CString;
    BlobViews(fdt);
    ghost var b := fdt.Bytes();
    var end := DataSize(fdt);
    CStringLength(name);
    r := Splice(fdt, end, 0, |name| + 1);
    if r != 0 {
      BlobViews(fdt);
      return;
    }
    KeptBelow(b, fdt.Bytes(), end + |name| + 1, 0, end);
    PutBytes(fdt, end, CString(name));
    ghost var c := fdt.Bytes();
    KeptBelow(b, c, end, fdt.off_dt_struct, fdt.off_dt_struct + fdt.size_dt_struct);
    KeptBelow(b, c, end, 0, fdt.off_dt_struct);
    KeptBelow(b, c, end, fdt.off_dt_strings, end);
    fdt.size_dt_strings := fdt.size_dt_strings + (|name| + 1);
    BlobViews(fdt);
    Thirds(c, fdt.off_dt_strings, end, end, end + |name| + 1);
  }

  lemma Thirds(d: seq<byte>, i: nat, j: nat, k: nat, l: nat)
    requires i <= j <= k <= l <= |d|
    ensures d[i..l] == d[i..j] + d[j..k] + d[k..l]
    ensures j == k ==> d[i..l] == d[i..j] + d[k..l]
  {
  }

  lemma CStringLength(name: seq<byte>)
    ensures |CString(name)| == |name| + 1
  {
  }

  /** Writes bytes inside the structure block. */
  method PutStruct(fdt: Blob, o: nat, val: seq<byte>)
    requires Ready(fdt) && o + |val| <= fdt.size_dt_struct
    modifies fdt.buf
    ensures fdt.Struct()[..o] == old(fdt.Struct())[..o]
    ensures fdt.Struct()[o..o + |val|] == val
    ensures fdt.Struct()[o + |val|..] == old(fdt.Struct())[o + |val|..]
    ensures fdt.Strings() == old(fdt.Strings()) && FrontKept(fdt)
  {
    hide Blob.Bytes;
    ghost var b := fdt.Bytes();
    ghost var lo, n, m := fdt.off_dt_struct, fdt.size_dt_struct, |val|;
    PutBytes(fdt, fdt.off_dt_struct + o, val);
    ghost var c := fdt.Bytes();
    BytesPut(b, c, lo, n, o, m);
    KeptBelow(b, c, lo + o, 0, lo);
    KeptAbove(b, c, lo + o + m, fdt.off_dt_strings, fdt.off_dt_strings + fdt.size_dt_strings);
  }

  /** `_fdt_find_add_string` of the editor: the offset of the string in the strings block. */
  method FindAddStringRw(fdt: Blob, name: seq<byte>) returns (r: int)
    requires Ready(fdt) && 0 !in name
    modifies fdt`size_dt_strings, fdt.buf
    ensures HeaderKept(fdt) && Ready(fdt) && FrontKept(fdt) && fdt.Struct() == old(fdt.Struct())
    ensures r < 0 <==> !Stands(old(fdt.Strings()), name) && old(DataSize(fdt)) + |name| + 1 > fdt.totalsize
    ensures r < 0 ==> r == -FDT_ERR_NOSPACE
    ensures fdt.Strings() ==
            if r >= 0 && !Stands(old(fdt.Strings()), name) then old(fdt.Strings()) + CString(name) else old(fdt.Strings())
    ensures r >= 0 ==> r < |fdt.Strings()| && Terminated(fdt.Strings(), r) && StringAt(fdt.Strings(), r) == name
  {
    hide Stands, CString, Terminated, StringAt, Blob.Struct, Blob.Strings, Blob.Bytes;
    var p := FindInStrings(fdt, name);
    if p >= 0 {
      FoundIsString(fdt.Strings(), name, p);
      FoundInside(fdt.Strings(), p);
      r := p;
    } else {
      r := AppendNew(fdt, name);
    }
  }

  /** The search of the strings block. */
  method FindInStrings(fdt: Blob, name: seq<byte>) returns (p: int)
    requires fdt.InBuffer()
    ensures p < 0 <==> !Stands(fdt.Strings(), name)
    ensures p >= 0 ==> StandsAt(fdt.Strings(), name, p)
  {
    hide Stands;
    p := FindString(fdt.buf, fdt.off_dt_strings, fdt.off_dt_strings + fdt.size_dt_strings, name);
  }

  /** A name that is not in the strings block yet. */
  method AppendNew(fdt: Blob, name: seq<byte>) returns (r: int)
    requires Ready(fdt) && 0 !in name
    modifies fdt`size_dt_strings, fdt.buf
    ensures HeaderKept(fdt) && Ready(fdt) && FrontKept(fdt) && fdt.Struct() == old(fdt.Struct())
    ensures r == if old(DataSize(fdt)) + |name| + 1 > fdt.totalsize then -FDT_ERR_NOSPACE else old(fdt.size_dt_strings)
    ensures fdt.Strings() == if r >= 0 then old(fdt.Strings()) + CString(name) else old(fdt.Strings())
    ensures r >= 0 ==> r < |fdt.Strings()| && Terminated(fdt.Strings(), r) && StringAt(fdt.Strings(), r) == name
  {
    hide CString, Terminated, StringAt, Blob.Struct, Blob.Strings, Blob.Bytes;
    AppendedString(fdt.Strings(), name);
    r := fdt.size_dt_strings;
    var err := AppendString(fdt, name);
    if err != 0 {
      r := err;
    }
  }

  lemma FoundInside(t: seq<byte>, p: nat)
    requires Terminated(t, p)
    ensures p < |t|
  {
  }

  lemma AppendedString(t: seq<byte>, name: seq<byte>)
    requires 0 !in name
    ensures Terminated(t + CString(name), |t|) && StringAt(t + CString(name), |t|) == name
    ensures |t| < |t + CString(name)|
  {
    assert (t + CString(name))[|t|..|t| + |name| + 1] == CString(name);
    FoundIsString(t + CString(name), name, |t|);
  }

  // ----- properties -----

  /** Room has been made for one property in the place of items `i` to `j`, and its header written. */
  ghost predicate PropHole(s: seq<byte>, t: seq<byte>, items: seq<Item>, i: nat, j: nat, nameoff: nat, len: nat) {
    && i <= j <= |items| && Spliced(s, t, items, i, j, 12 + Align(len)) && |t| <= MAX_STRUCT
    && var o := Off(items, i);
       U32(t, o) == FDT_PROP && U32(t, o + 4) == len && U32(t, o + 8) == nameoff
  }

  /** Filling in the value completes the property. */
  lemma {:induction false} FillHole(s: seq<byte>, t: seq<byte>, u: seq<byte>, items: seq<Item>, i: nat, j: nat, nameoff: nat, val: seq<byte>)
    requires Layout(s, items) && PropHole(s, t, items, i, j, nameoff, |val|) && nameoff < U32_SPAN && |u| == |t|
    requires var o := Off(items, i) + 12;
             && o + |val| <= |t| && u[..o] == t[..o] && u[o..o + |val|] == val && u[o + |val|..] == t[o + |val|..]
    ensures Off(items, i) + 12 + Align(|val|) <= |u|
    ensures var pad := u[Off(items, i) + 12 + |val|..Off(items, i) + 12 + Align(|val|)];
            Prop(nameoff, val, pad).Ok() && Layout(u, Replace(items, i, j, [Prop(nameoff, val, pad)]))
  {
    hide U32, Sits, Align;
    var o, n := Off(items, i), |val|;
    AlignBound(n);
    HoleSits(t, u, o, nameoff, val);
    var it := Prop(nameoff, val, u[o + 12 + n..o + 12 + Align(n)]);
    KeptBelow(t, u, o + 12, 0, o);
    KeptAbove(t, u, o + 12 + n, o + 12 + Align(n), |t|);
    SingleLayout(s, u, items, i, j, it);
  }

  lemma HoleSits(t: seq<byte>, u: seq<byte>, o: nat, nameoff: nat, val: seq<byte>)
    requires |t| == |u| <= MAX_STRUCT && o + 12 + Align(|val|) <= |t| && nameoff < U32_SPAN
    requires U32(t, o) == FDT_PROP && U32(t, o + 4) == |val| && U32(t, o + 8) == nameoff
    requires u[..o + 12] == t[..o + 12] && u[o + 12..o + 12 + |val|] == val
    ensures var it := Prop(nameoff, val, u[o + 12 + |val|..o + 12 + Align(|val|)]);
            Sits(u, o, it) && it.Size() == 12 + Align(|val|)
  {
    KeptBelow(t, u, o + 12, o, o + 4);
    U32Within(t, u, o, o);
    KeptBelow(t, u, o + 12, o + 4, o + 8);
    U32Within(t, u, o + 4, o + 4);
    KeptBelow(t, u, o + 12, o + 8, o + 12);
    U32Within(t, u, o + 8, o + 8);
    hide U32;
  }

  /** `_fdt_resize_property` on the property at item `j` of the node. */
  method ResizeProperty(fdt: Blob, nodeoffset: int, name: seq<byte>, len: nat, ghost items: seq<Item>, ghost at: nat)
    returns (err: int, prop: int)
    requires Editable(fdt, items) && Denotes(items, nodeoffset, at) && len < MAX_STRUCT
    modifies fdt`size_dt_struct, fdt`off_dt_strings, fdt.buf
    ensures HeaderKept(fdt) && Ready(fdt) && FrontKept(fdt) && fdt.Strings() == old(fdt.Strings())
    ensures err == ResizeCode(items, nodeoffset, at, fdt.Strings(), name, len, fdt.totalsize - old(DataSize(fdt)))
    ensures err != 0 ==> fdt.Struct() == old(fdt.Struct()) && DataSize(fdt) == old(DataSize(fdt))
    ensures err == 0 ==>
              var j := FindProp(items, at + 1, fdt.Strings(), name).at;
              prop == Off(items, j) && PropHole(old(fdt.Struct()), fdt.Struct(), items, j, j + 1, items[j].nameoff, len)
  {
    hide Layout, Off, FindProp, NamesOk, U32, Align, PadLen, PropHole, Blob.Struct, Blob.Strings;
    ghost var s := fdt.Struct();
    var oldlen: int;
    prop, oldlen := GetProperty(fdt, nodeoffset, name, items, at);
    if prop < 0 {
      return oldlen, prop;
    }
    ghost var j := FindProp(items, at + 1, fdt.Strings(), name).at;
    PropRoom(s, items, j);
    err := SpliceStruct(fdt, prop + 12, Align(oldlen), Align(len));
    if err != 0 {
      return;
    }
    ghost var t := fdt.Struct();
    PutStruct(fdt, prop + 4, Put32(len));
    Resized(s, t, fdt.Struct(), items, j, len);
  }

  /** What `_fdt_resize_property` returns, with `room` bytes left in the buffer. */
  ghost function ResizeCode(items: seq<Item>, nodeoffset: int, at: nat, table: seq<byte>, name: seq<byte>, len: nat, room: int): int
    requires at <= |items|
  {
    if !(nodeoffset >= 0 && at < |items| && items[at].Begin?) then -FDT_ERR_BADOFFSET
    else match FindProp(items, at + 1, table, name)
      case At(j) => if Align(len) - Align(|items[j].value|) > room then -FDT_ERR_NOSPACE else 0
      case Absent => -FDT_ERR_NOTFOUND
      case Unclosed => -FDT_ERR_BADSTRUCTURE
  }

  lemma PropRoom(s: seq<byte>, items: seq<Item>, j: nat)
    requires Layout(s, items) && j < |items| && items[j].Prop?
    ensures Off(items, j + 1) == Off(items, j) + 12 + Align(|items[j].value|) <= |s|
    ensures Off(items, j) + 12 <= |s|
  {
    hide U32;
    assert ItemSits(s, items, j);
    OffAligned(s, items, j + 1);
  }

  lemma Resized(s: seq<byte>, t: seq<byte>, u: seq<byte>, items: seq<Item>, j: nat, len: nat)
    requires Layout(s, items) && j < |items| && items[j].Prop? && len < U32_SPAN && |u| == |t| <= MAX_STRUCT
    requires var o, n, m := Off(items, j), Align(|items[j].value|), Align(len);
             && Off(items, j + 1) == o + 12 + n <= |s| && |t| == |s| - n + m
             && t[..o + 12] == s[..o + 12] && t[o + 12 + m..] == s[o + 12 + n..]
             && u[..o + 4] == t[..o + 4] && u[o + 4..o + 8] == Put32(len) && u[o + 8..] == t[o + 8..]
    ensures PropHole(s, u, items, j, j + 1, items[j].nameoff, len)
  {
    hide Align, U32, Layout, Sits, Off;
    var o, n, m := Off(items, j), Align(|items[j].value|), Align(len);
    PropWords(s, items, j);
    ResizedWords(s, t, u, o, len);
    KeptBelow(s, t, o + 12, 0, o);
    KeptBelow(t, u, o + 4, 0, o);
    KeptAbove(t, u, o + 8, o + 12 + m, |t|);
    assert Same(s, 0, u, 0, o);
    var p, q := o + 12 + n, o + 12 + m;
    assert s[p..p + (|s| - p)] == s[p..] && u[q..q + (|s| - p)] == u[q..|t|] && t[q..|t|] == t[q..];
  }

  lemma ResizedWords(s: seq<byte>, t: seq<byte>, u: seq<byte>, o: nat, len: nat)
    requires o + 12 <= |s| && o + 12 <= |t| == |u| && len < U32_SPAN && t[..o + 12] == s[..o + 12]
    requires u[..o + 4] == t[..o + 4] && u[o + 4..o + 8] == Put32(len) && u[o + 8..] == t[o + 8..]
    ensures U32(u, o) == U32(s, o) && U32(u, o + 4) == len && U32(u, o + 8) == U32(s, o + 8)
  {
    hide U32;
    KeptBelow(s, t, o + 12, o, o + 4);
    KeptBelow(t, u, o + 4, o, o + 4);
    U32Within(s, u, o, o);
    U32Within(u, Put32(len), o + 4, 0);
    KeptBelow(s, t, o + 12, o + 8, o + 12);
    KeptAbove(t, u, o + 8, o + 8, o + 12);
    U32Within(s, u, o + 8, o + 8);
  }

  /** `_fdt_add_property`: a property in front of all others of the node. */
  method AddPropertyRw(fdt: Blob, nodeoffset: int, name: seq<byte>, len: nat, ghost items: seq<Item>, ghost at: nat)
    returns (err: int, prop: int, ghost nameoff: nat)
    requires Editable(fdt, items) && Denotes(items, nodeoffset, at) && nodeoffset >= 0 && at < |items| && items[at].Begin?
    requires 0 !in name && len < MAX_STRUCT
    modifies fdt`size_dt_struct, fdt`size_dt_strings, fdt`off_dt_strings, fdt.buf
    ensures HeaderKept(fdt) && Ready(fdt) && FrontKept(fdt)
    ensures fdt.Strings() == old(fdt.Strings()) || fdt.Strings() == old(fdt.Strings()) + CString(name)
    ensures err == if old(DataSize(fdt)) + StringRoom(old(fdt.Strings()), name) + 12 + Align(len) > fdt.totalsize
                   then -FDT_ERR_NOSPACE else 0
    ensures err != 0 ==> fdt.Struct() == old(fdt.Struct())
    ensures err == 0 ==>
              && prop == Off(items, at + 1) && nameoff < U32_SPAN && nameoff < |fdt.Strings()|
              && PropHole(old(fdt.Struct()), fdt.Struct(), items, at + 1, at + 1, nameoff, len)
              && Terminated(fdt.Strings(), nameoff) && StringAt(fdt.Strings(), nameoff) == name
  {
    hide Layout, Off, NamesOk, U32, Align, PadLen, PropHole, Terminated, StringAt, Blob.Struct, Blob.Strings, Stands;
    ghost var s := fdt.Struct();
    nameoff, prop := 0, -1;
    AlignBound(len);
    var nextoffset := CheckNodeOffset(fdt, nodeoffset, items, at);
    OffAligned(s, items, at + 1);
    var namestroff := FindAddStringRw(fdt, name);
    if namestroff < 0 {
      return namestroff, prop, nameoff;
    }
    nameoff := namestroff;
    prop := nextoffset;
    err := OpenProperty(fdt, prop, namestroff, len, items, at + 1);
  }

  /** Makes room for a property in front of item `i` and writes its header. */
  method OpenProperty(fdt: Blob, prop: nat, nameoff: nat, len: nat, ghost items: seq<Item>, ghost i: nat) returns (err: int)
    requires Ready(fdt) && i <= |items| && prop == Off(items, i) <= fdt.size_dt_struct
    requires nameoff < U32_SPAN && len < MAX_STRUCT
    modifies fdt`size_dt_struct, fdt`off_dt_strings, fdt.buf
    ensures HeaderKept(fdt) && Ready(fdt) && FrontKept(fdt) && fdt.Strings() == old(fdt.Strings())
    ensures err == if old(DataSize(fdt)) + 12 + Align(len) > fdt.totalsize then -FDT_ERR_NOSPACE else 0
    ensures err != 0 ==> fdt.Struct() == old(fdt.Struct())
    ensures err == 0 ==> PropHole(old(fdt.Struct()), fdt.Struct(), items, i, i, nameoff, len)
  {
    hide Off, U32, Align, PropHole, Blob.Struct, Blob.Strings, Blob.Bytes;
    ghost var s := fdt.Struct();
    err := SpliceStruct(fdt, prop, 0, 12 + Align(len));
    if err != 0 {
      return;
    }
    ghost var t := fdt.Struct();
    PutStruct(fdt, prop, Put32(FDT_PROP) + Put32(len) + Put32(nameoff));
    Opened(s, t, fdt.Struct(), items, i, nameoff, len);
  }

  /** The bytes a new name takes in the strings block. */
  ghost function StringRoom(table: seq<byte>, name: seq<byte>): nat {
    if Stands(table, name) then 0 else |name| + 1
  }

  lemma {:induction false} Opened(s: seq<byte>, t: seq<byte>, u: seq<byte>, items: seq<Item>, i: nat, nameoff: nat, len: nat)
    requires i <= |items| && len < U32_SPAN && nameoff < U32_SPAN && |u| == |t| <= MAX_STRUCT
    requires var o, m := Off(items, i), Align(len);
             && o <= |s| && |t| == |s| + 12 + m
             && t[..o] == s[..o] && t[o + 12 + m..] == s[o..]
             && u[..o] == t[..o] && u[o..o + 12] == Put32(FDT_PROP) + Put32(len) + Put32(nameoff) && u[o + 12..] == t[o + 12..]
    ensures PropHole(s, u, items, i, i, nameoff, len)
  {
    hide Align, U32, Put32;
    var o, m := Off(items, i), Align(len);
    HeaderWords(u, o, nameoff, len);
    KeptAbove(t, u, o + 12, o + 12 + m, |t|);
    assert u[o + 12 + m..] == u[o + 12 + m..|t|] && t[o + 12 + m..] == t[o + 12 + m..|t|];
    SameEnds(s, u, o, o, 12 + m);
    hide Same;
  }

  lemma HeaderWords(u: seq<byte>, o: nat, nameoff: nat, len: nat)
    requires o + 12 <= |u| && len < U32_SPAN && nameoff < U32_SPAN
    requires u[o..o + 12] == Put32(FDT_PROP) + Put32(len) + Put32(nameoff)
    ensures U32(u, o) == FDT_PROP && U32(u, o + 4) == len && U32(u, o + 8) == nameoff
  {
    hide U32;
    var val := Put32(FDT_PROP) + Put32(len) + Put32(nameoff);
    assert val[0..4] == Put32(FDT_PROP) && val[4..8] == Put32(len) && val[8..12] == Put32(nameoff);
    WordAt(u, o, val, 0, FDT_PROP);
    WordAt(u, o, val, 4, len);
    WordAt(u, o, val, 8, nameoff);
  }

  /** What `fdt_setprop` returns past the header check. */
  ghost function SetCode(items: seq<Item>, nodeoffset: int, at: nat, table: seq<byte>, name: seq<byte>, len: nat, room: int): int
    requires at <= |items|
  {
    var code := ResizeCode(items, nodeoffset, at, table, name, len, room);
    if code == -FDT_ERR_NOTFOUND then
      if StringRoom(table, name) + 12 + Align(len) > room then -FDT_ERR_NOSPACE else 0
    else code
  }

  /** The place in the node at `at` where a property of that name is set: that of the first one there
      is, or in front of all. */
  ghost function SetFrom(items: seq<Item>, at: nat, table: seq<byte>, name: seq<byte>): nat
    requires at < |items|
  {
    var f := FindProp(items, at + 1, table, name);
    if f.At? then f.at else at + 1
  }

  ghost function SetTo(items: seq<Item>, at: nat, table: seq<byte>, name: seq<byte>): nat
    requires at < |items|
  {
    var f := FindProp(items, at + 1, table, name);
    if f.At? then f.at + 1 else at + 1
  }

  /** `fdt_setprop` past the header check: the property is replaced where it is, or put in front of the
      node's others, and all else stays; on an error the tree stays, even when its name was added. */
  method SetChecked(fdt: Blob, nodeoffset: int, name: seq<byte>, val: seq<byte>, ghost items: seq<Item>, ghost at: nat)
    returns (r: int, ghost it: Item)
    requires Editable(fdt, items) && Denotes(items, nodeoffset, at)
    requires 0 !in name && |val| < MAX_STRUCT
    modifies fdt`size_dt_struct, fdt`size_dt_strings, fdt`off_dt_strings, fdt.buf
    ensures HeaderKept(fdt) && Ready(fdt) && FrontKept(fdt)
    ensures fdt.Strings() == old(fdt.Strings()) || fdt.Strings() == old(fdt.Strings()) + CString(name)
    ensures r == SetCode(items, nodeoffset, at, old(fdt.Strings()), name, |val|, fdt.totalsize - old(DataSize(fdt)))
    ensures r != 0 ==>
              && Editable(fdt, items) && fdt.Struct() == old(fdt.Struct())
              && Meaning(items, fdt.Strings()) == Meaning(items, old(fdt.Strings()))
    ensures r == 0 ==>
              && at < |items| && it.Prop? && it.value == val && StringAt(fdt.Strings(), it.nameoff) == name
              && var i, j := SetFrom(items, at, old(fdt.Strings()), name), SetTo(items, at, old(fdt.Strings()), name);
                 Editable(fdt, Replace(items, i, j, [it]))
  {
    hide Layout, Off, NamesOk, U32, Align, PadLen, PropHole, Terminated, StringAt, Blob.Struct, Blob.Strings, Blob.Bytes, Stands, FindProp, Meaning, CString;
    it := Nop;
    ghost var s, table := fdt.Struct(), fdt.Strings();
    var err, prop := ResizeProperty(fdt, nodeoffset, name, |val|, items, at);
    ghost var nameoff := 0;
    if err == 0 {
      nameoff := items[FindProp(items, at + 1, table, name).at].nameoff;
      FoundName(items, FindProp(items, at + 1, table, name).at, table);
    }
    if err == -FDT_ERR_NOTFOUND {
      err, prop, nameoff := AddPropertyRw(fdt, nodeoffset, name, |val|, items, at);
    }
    TableGrown(items, table, fdt.Strings(), name);
    if err != 0 {
      return err, it;
    }
    it := FillProperty(fdt, prop, name, val, nameoff, items, SetFrom(items, at, table, name), SetTo(items, at, table, name), s);
    return 0, it;
  }

  /** `fdt_setprop`. */
  method SetProp(fdt: Blob, nodeoffset: int, name: seq<byte>, val: seq<byte>, ghost items: seq<Item>, ghost at: nat)
    returns (r: int, ghost it: Item)
    requires RwCode(fdt) == 0 ==> Editable(fdt, items) && Denotes(items, nodeoffset, at)
    requires 0 !in name && |val| < MAX_STRUCT
    modifies fdt`version, fdt`size_dt_struct, fdt`size_dt_strings, fdt`off_dt_strings, fdt.buf
    ensures old(RwCode(fdt)) != 0 ==> r == old(RwCode(fdt)) && fdt.Bytes() == old(fdt.Bytes())
    ensures old(RwCode(fdt)) == 0 ==>
              && Ready(fdt) && FrontKept(fdt)
              && r == SetCode(items, nodeoffset, at, old(fdt.Strings()), name, |val|, fdt.totalsize - old(DataSize(fdt)))
              && (r != 0 ==> Editable(fdt, items) && Meaning(items, fdt.Strings()) == Meaning(items, old(fdt.Strings())))
              && (r == 0 ==>
                    && at < |items| && it.Prop? && it.value == val && StringAt(fdt.Strings(), it.nameoff) == name
                    && var i, j := SetFrom(items, at, old(fdt.Strings()), name), SetTo(items, at, old(fdt.Strings()), name);
                       Editable(fdt, Replace(items, i, j, [it])))
              && (fdt.Strings() == old(fdt.Strings()) || fdt.Strings() == old(fdt.Strings()) + CString(name))
  {
    hide Layout, Off, NamesOk, Align, StringAt, Blob.Struct, Blob.Strings, Blob.Bytes, Meaning, CString, SetCode, SetFrom, SetTo;
    it := Nop;
    var err := RwCheckHeader(fdt);
    if err != 0 {
      return err, it;
    }
    r, it := SetChecked(fdt, nodeoffset, name, val, items, at);
  }

  lemma FoundName(items: seq<Item>, j: nat, table: seq<byte>)
    requires NamesOk(items, table) && j < |items| && items[j].Prop?
    ensures Terminated(table, items[j].nameoff)
  {
  }

  lemma TableGrown(items: seq<Item>, table: seq<byte>, table': seq<byte>, name: seq<byte>)
    requires NamesOk(items, table) && (table' == table || table' == table + CString(name))
    ensures NamesOk(items, table') && Meaning(items, table') == Meaning(items, table)
  {
    if table' != table {
      MeaningKept(items, table, CString(name));
    }
  }

  /** The last step of `fdt_setprop`: the value. */
  method FillProperty(fdt: Blob, prop: nat, name: seq<byte>, val: seq<byte>, ghost nameoff: nat,
                      ghost items: seq<Item>, ghost i: nat, ghost j: nat, ghost s: seq<byte>)
    returns (ghost it: Item)
    requires Ready(fdt) && Layout(s, items) && NamesOk(items, fdt.Strings())
    requires PropHole(s, fdt.Struct(), items, i, j, nameoff, |val|) && prop == Off(items, i) && nameoff < U32_SPAN
    requires Terminated(fdt.Strings(), nameoff) && StringAt(fdt.Strings(), nameoff) == name
    modifies fdt.buf
    ensures Ready(fdt) && fdt.Strings() == old(fdt.Strings()) && FrontKept(fdt)
    ensures it.Prop? && it.value == val && it.nameoff == nameoff && i <= j <= |items|
    ensures Editable(fdt, Replace(items, i, j, [it]))
  {
    hide Layout, Off, U32, Align, Terminated, StringAt, Blob.Struct, Blob.Strings, Blob.Bytes, Same;
    ghost var t := fdt.Struct();
    AlignBound(|val|);
    assert prop + 12 + Align(|val|) <= |t|;
    PutStruct(fdt, prop + 12, val);
    ghost var u := fdt.Struct();
    FillHole(s, t, u, items, i, j, nameoff, val);
    it := Prop(nameoff, val, u[prop + 12 + |val|..prop + 12 + Align(|val|)]);
    NamesReplaced(items, i, j, it, fdt.Strings());
  }

  lemma NamesReplaced(items: seq<Item>, i: nat, j: nat, it: Item, table: seq<byte>)
    requires i <= j <= |items| && NamesOk(items, table) && (it.Prop? ==> Terminated(table, it.nameoff))
    ensures NamesOk(Replace(items, i, j, [it]), table)
  {
    hide Terminated;
    var r := Replace(items, i, j, [it]);
    forall k | 0 <= k < |r| && r[k].Prop? ensures Terminated(table, r[k].nameoff) {
      if k < i {
        assert r[k] == items[k];
      } else if k > i {
        assert r[k] == items[k - i - 1 + j];
      }
    }
  }

  // ----- removing -----

  /** `t` is `s` without the `len` bytes at `o`. */
  predicate Removed(s: seq<byte>, t: seq<byte>, o: nat, len: nat) {
    o + len <= |s| && t == s[..o] + s[o + len..]
  }

  /** `t` is `s` with the bytes `val` inserted at `o`. */
  predicate Inserted(s: seq<byte>, t: seq<byte>, o: nat, val: seq<byte>) {
    o <= |s| && t == s[..o] + val + s[o..]
  }

  lemma JoinTwo(t: seq<byte>, o: nat, a: seq<byte>, b: seq<byte>)
    requires o <= |t| && t[..o] == a && t[o..] == b
    ensures t == a + b
  {
  }

  /** Removing the items from `i` to `j` by a splice of their bytes. */
  method CutItems(fdt: Blob, ghost items: seq<Item>, ghost i: nat, ghost j: nat, o: nat, len: nat) returns (r: int)
    requires Editable(fdt, items) && i <= j <= |items| && o == Off(items, i) && o + len == Off(items, j)
    modifies fdt`size_dt_struct, fdt`off_dt_strings, fdt.buf
    ensures r == 0 && Ready(fdt) && HeaderKept(fdt) && FrontKept(fdt) && fdt.Strings() == old(fdt.Strings())
    ensures Editable(fdt, Replace(items, i, j, [])) && Removed(old(fdt.Struct()), fdt.Struct(), o, len)
    ensures fdt.off_dt_strings == old(fdt.off_dt_strings) - len
  {
    hide Layout, U32, Off, Blob.Struct, Blob.Strings, Blob.Bytes, NamesOk;
    ghost var s := fdt.Struct();
    OffAligned(s, items, j);
    r := SpliceStruct(fdt, o, len, 0);
    JoinTwo(fdt.Struct(), o, s[..o], s[o + len..]);
    CutLayout(s, fdt.Struct(), items, i, j);
    NamesCut(items, i, j, fdt.Strings());
  }

  lemma CutLayout(s: seq<byte>, t: seq<byte>, items: seq<Item>, i: nat, j: nat)
    requires Layout(s, items) && i <= j <= |items|
    requires var o, p := Off(items, i), Off(items, j);
             o <= p <= |s| && |t| == |s| - (p - o) && t[..o] == s[..o] && t[o..] == s[p..]
    ensures Layout(t, Replace(items, i, j, []))
  {
    hide U32;
    var o, p := Off(items, i), Off(items, j);
    assert Off([], 0) == 0;
    assert Same(s, 0, t, 0, o) && Same(s, p, t, o, |s| - p);
    SpliceLayout(s, t, items, i, j, []);
  }

  lemma NamesCut(items: seq<Item>, i: nat, j: nat, table: seq<byte>)
    requires i <= j <= |items| && NamesOk(items, table)
    ensures NamesOk(Replace(items, i, j, []), table)
  {
    hide Terminated;
    var r := Replace(items, i, j, []);
    forall k | 0 <= k < |r| && r[k].Prop? ensures Terminated(table, r[k].nameoff) {
      assert r[k] == if k < i then items[k] else items[k - i + j];
    }
  }

  /** `fdt_delprop`. */
  method DelProp(fdt: Blob, nodeoffset: int, name: seq<byte>, ghost items: seq<Item>, ghost at: nat) returns (r: int)
    requires RwCode(fdt) == 0 ==> Editable(fdt, items) && Denotes(items, nodeoffset, at)
    modifies fdt`version, fdt`size_dt_struct, fdt`off_dt_strings, fdt.buf
    ensures old(RwCode(fdt)) != 0 ==> r == old(RwCode(fdt)) && fdt.Bytes() == old(fdt.Bytes())
    ensures old(RwCode(fdt)) == 0 ==>
              && Ready(fdt) && FrontKept(fdt) && fdt.Strings() == old(fdt.Strings())
              && if nodeoffset >= 0 && at < |items| && items[at].Begin? then
                   match FindProp(items, at + 1, fdt.Strings(), name)
                   case At(j) => r == 0 && Editable(fdt, Replace(items, j, j + 1, []))
                   case Absent => r == -FDT_ERR_NOTFOUND && Editable(fdt, items)
                   case Unclosed => r == -FDT_ERR_BADSTRUCTURE && Editable(fdt, items)
                 else r == -FDT_ERR_BADOFFSET && Editable(fdt, items)
  {
    hide Layout, Off, NamesOk, Align, StringAt, Blob.Struct, Blob.Strings, Blob.Bytes, FindProp;
    r := RwCheckHeader(fdt);
    if r != 0 {
      return;
    }
    var prop, len := GetProperty(fdt, nodeoffset, name, items, at);
    if prop < 0 {
      return len;
    }
    ghost var j := FindProp(items, at + 1, fdt.Strings(), name).at;
    PropRoom(fdt.Struct(), items, j);
    var proplen := 12 + Align(len);
    r := CutItems(fdt, items, j, j + 1, prop, proplen);
  }

  /** `fdt_del_node`: the node's tag, its end tag and all between go. */
  method DelNode(fdt: Blob, nodeoffset: int, ghost items: seq<Item>, ghost at: nat) returns (r: int)
    requires RwCode(fdt) == 0 ==> Editable(fdt, items) && Denotes(items, nodeoffset, at)
    modifies fdt`version, fdt`size_dt_struct, fdt`off_dt_strings, fdt.buf
    ensures old(RwCode(fdt)) != 0 ==> r == old(RwCode(fdt)) && fdt.Bytes() == old(fdt.Bytes())
    ensures old(RwCode(fdt)) == 0 ==>
              && Ready(fdt) && FrontKept(fdt) && fdt.Strings() == old(fdt.Strings()) && fdt.totalsize == old(fdt.totalsize)
              && var e := EndCode(items, nodeoffset, at);
                 if e < 0 then r == e && Editable(fdt, items) && fdt.Bytes() == old(fdt.Bytes())
                 else
                   && r == 0 && nodeoffset >= 0 && at < |items| && items[at].Begin? && CloseOf(items, at + 1, 0).Some?
                   && Editable(fdt, Replace(items, at, CloseOf(items, at + 1, 0).value, []))
                   && nodeoffset <= e && Removed(old(fdt.Struct()), fdt.Struct(), nodeoffset, e - nodeoffset)
                   && fdt.off_dt_strings == old(fdt.off_dt_strings) - (e - nodeoffset)
  {
    hide Layout, Off, NamesOk, Blob.Struct, Blob.Strings, Blob.Bytes, CloseOf;
    r := RwCheckHeader(fdt);
    if r != 0 {
      return;
    }
    var endoffset := NodeEndOffset(fdt, nodeoffset, items, at);
    if endoffset < 0 {
      return endoffset;
    }
    ghost var e := CloseOf(items, at + 1, 0).value;
    OffMonotone(fdt.Struct(), items, at, e);
    r := CutItems(fdt, items, at, e, nodeoffset, endoffset - nodeoffset);
  }

  // ----- adding a node -----

  /** Behind the properties and NOPs from item `k` on. */
  function PropsEnd(items: seq<Item>, k: nat): (r: nat)
    requires k <= |items|
    ensures k <= r <= |items|
    decreases |items| - k
  {
    if k < |items| && (items[k].Prop? || items[k].Nop?) then PropsEnd(items, k + 1) else k
  }

  /** There are only properties and NOPs up to it, and it is a node or the end of one. */
  lemma {:induction false} PropsEndIs(items: seq<Item>, k: nat)
    requires k <= |items|
    ensures var r := PropsEnd(items, k);
            && (forall m :: k <= m < r ==> items[m].Prop? || items[m].Nop?)
            && (r < |items| ==> items[r].Begin? || items[r].EndNode?)
    decreases |items| - k
  {
    if k < |items| && (items[k].Prop? || items[k].Nop?) {
      PropsEndIs(items, k + 1);
    }
  }

  function Zeros(n: nat): (s: seq<byte>)
    ensures |s| == n
  {
    seq(n, _ => 0)
  }

  /** The bytes `fdt_add_subnode` writes. */
  function NodeBytes(name: seq<byte>): (s: seq<byte>)
    ensures |s| == 4 + Align(|name| + 1) + 4
  {
    AlignBound(|name| + 1);
    Put32(FDT_BEGIN_NODE) + name + Zeros(Align(|name| + 1) - |name|) + Put32(FDT_END_NODE)
  }

  /** The items they are: a node with nothing in it. */
  function EmptyNode(name: seq<byte>): seq<Item> {
    [Begin(name, Zeros(PadLen(|name| + 1))), EndNode]
  }

  lemma NodeBytesParts(name: seq<byte>)
    ensures var val, n, m := NodeBytes(name), |name|, Align(|name| + 1);
            && n + 1 <= m && val[0..5 + n] == Put32(FDT_BEGIN_NODE) + CString(name)
            && val[5 + n..4 + m] == Zeros(PadLen(n + 1)) && val[4 + m..8 + m] == Put32(FDT_END_NODE)
  {
    hide U32, U16;
    AlignBound(|name| + 1);
    var val, n, m := NodeBytes(name), |name|, Align(|name| + 1);
    hide Align;
    assert forall k :: 4 + n <= k < 4 + m ==> val[k] == 0;
  }

  lemma EmptyNodeTags(u: seq<byte>, o: nat, name: seq<byte>)
    requires 0 !in name && o + 4 + Align(|name| + 1) + 4 <= |u| && u[o..o + 4 + Align(|name| + 1) + 4] == NodeBytes(name)
    ensures var it := Begin(name, Zeros(PadLen(|name| + 1)));
            Sits(u, o, it) && it.Size() == 4 + Align(|name| + 1) && Sits(u, o + it.Size(), EndNode)
  {
    hide U32, NodeBytes, Zeros, CString, Sits;
    var n, m := |name|, Align(|name| + 1);
    NodeBytesParts(name);
    SliceOfSlice(u, o, o + m + 8, 0, 5 + n);
    SliceOfSlice(u, o, o + m + 8, 5 + n, 4 + m);
    FreshBegin(u, o, name);
    WordAt(u, o, NodeBytes(name), 4 + m, FDT_END_NODE);
    EndSits(u, o + 4 + m);
  }

  lemma EndSits(u: seq<byte>, o: nat)
    requires o + 4 <= |u| && U32(u, o) == FDT_END_NODE
    ensures Sits(u, o, EndNode)
  {
  }

  lemma EmptyNodeSits(u: seq<byte>, o: nat, name: seq<byte>)
    requires 0 !in name && o + 4 + Align(|name| + 1) + 4 <= |u| && u[o..o + 4 + Align(|name| + 1) + 4] == NodeBytes(name)
    ensures Off(EmptyNode(name), 2) == 4 + Align(|name| + 1) + 4
    ensures SitsFrom(u, o, EmptyNode(name), 0) && SitsFrom(u, o, EmptyNode(name), 1)
  {
    hide U32, NodeBytes, Zeros, CString, Sits, Align;
    EmptyNodeTags(u, o, name);
    var mid := EmptyNode(name);
    assert Off(mid, 0) == 0 && Off(mid, 1) == mid[0].Size() && Off(mid, 2) == mid[0].Size() + 4;
  }

  /** The last part of `fdt_add_subnode_namelen`: makes room for an empty node at an offset of the structure
      block, which may be one before it, and writes the node there. */
  method InsertNode(fdt: Blob, offset: int, name: seq<byte>) returns (err: int)
    requires Ready(fdt) && 0 <= fdt.off_dt_struct + offset && offset <= fdt.size_dt_struct
    modifies fdt`size_dt_struct, fdt`off_dt_strings, fdt.buf
    ensures HeaderKept(fdt) && Ready(fdt)
    ensures err == if old(DataSize(fdt)) + |NodeBytes(name)| > fdt.totalsize then -FDT_ERR_NOSPACE else 0
    ensures err != 0 ==> fdt.Bytes() == old(fdt.Bytes()) && DataSize(fdt) == old(DataSize(fdt))
    ensures fdt.size_dt_struct == old(fdt.size_dt_struct) + if err == 0 then |NodeBytes(name)| else 0
    ensures fdt.off_dt_strings == old(fdt.off_dt_strings) + if err == 0 then |NodeBytes(name)| else 0
    ensures err == 0 ==>
              && old(DataSize(fdt)) <= |old(fdt.Bytes())|
              && Inserted(old(fdt.Bytes())[..old(DataSize(fdt))], fdt.Bytes()[..DataSize(fdt)], fdt.off_dt_struct + offset, NodeBytes(name))
  {
    hide Blob.Bytes, NodeBytes, Align;
    ghost var b, end := fdt.Bytes(), DataSize(fdt);
    var p := fdt.off_dt_struct + offset;
    var nodelen := 4 + Align(|name| + 1) + 4;
    err := Splice(fdt, p, 0, nodelen);
    if err != 0 {
      return;
    }
    ghost var c := fdt.Bytes();
    fdt.size_dt_struct := fdt.size_dt_struct + nodelen;
    fdt.off_dt_strings := fdt.off_dt_strings + nodelen;
    PutBytes(fdt, p, NodeBytes(name));
    InsertedBytes(b, c, fdt.Bytes(), end, p, NodeBytes(name));
  }

  /** The same as seen from the blocks. */
  method PlaceNode(fdt: Blob, offset: int, name: seq<byte>) returns (err: int)
    requires Ready(fdt) && 0 <= fdt.off_dt_struct + offset && offset <= fdt.size_dt_struct && -offset <= |NodeBytes(name)|
    modifies fdt`size_dt_struct, fdt`off_dt_strings, fdt.buf
    ensures HeaderKept(fdt) && Ready(fdt) && fdt.Strings() == old(fdt.Strings())
    ensures err == if old(DataSize(fdt)) + |NodeBytes(name)| > fdt.totalsize then -FDT_ERR_NOSPACE else 0
    ensures err != 0 ==> fdt.Bytes() == old(fdt.Bytes()) && fdt.Struct() == old(fdt.Struct())
    ensures err == 0 ==> fdt.off_dt_strings == old(fdt.off_dt_strings) + |NodeBytes(name)|
    ensures err == 0 && offset >= 0 ==> FrontKept(fdt) && Inserted(old(fdt.Struct()), fdt.Struct(), offset, NodeBytes(name))
    ensures err == 0 && offset < 0 ==>
              && Before(fdt, -offset) == NodeBytes(name)[..-offset]
              && fdt.Struct() == NodeBytes(name)[-offset..] + old(Before(fdt, -offset)) + old(fdt.Struct())
  {
    hide Blob.Bytes, Blob.Struct, Blob.Strings, Inserted, NodeBytes, Before;
    ghost var b, s, t, end := fdt.Bytes(), fdt.Struct(), fdt.Strings(), DataSize(fdt);
    BlobViews(fdt);
    ghost var w := if offset < 0 then Before(fdt, -offset) else [];
    BeforeView(fdt, if offset < 0 then -offset else 0);
    err := InsertNode(fdt, offset, name);
    if err != 0 {
      BlobViews(fdt);
    } else if offset >= 0 {
      InsideView(fdt, b, s, t, end, offset, NodeBytes(name));
    } else {
      FrontView(fdt, b, s, t, w, end, NodeBytes(name));
    }
  }

  lemma BeforeView(fdt: Blob, k: nat)
    requires k <= fdt.off_dt_struct <= fdt.buf.Length
    ensures Before(fdt, k) == fdt.Bytes()[fdt.off_dt_struct - k..fdt.off_dt_struct]
  {
  }

  /** The insertion into the bytes `b` as seen from the blocks, which were `s` and `t`. */
  lemma InsideView(fdt: Blob, b: seq<byte>, s: seq<byte>, t: seq<byte>, end: nat, o: nat, val: seq<byte>)
    requires Ready(fdt) && |b| == fdt.buf.Length && o <= |s| && fdt.size_dt_struct == |s| + |val|
    requires fdt.off_dt_struct + |s| + |t| <= end <= |b| && |t| == fdt.size_dt_strings && DataSize(fdt) == end + |val|
    requires s == b[fdt.off_dt_struct..fdt.off_dt_struct + |s|] && t == b[end - |t|..end]
    requires Inserted(b[..end], fdt.Bytes()[..DataSize(fdt)], fdt.off_dt_struct + o, val)
    ensures fdt.Strings() == t && Inserted(s, fdt.Struct(), o, val)
    ensures fdt.Bytes()[..fdt.off_dt_struct] == b[..fdt.off_dt_struct]
  {
    hide Blob.Bytes, Blob.Struct, Blob.Strings, Inserted;
    BlobViews(fdt);
    InsertedInside(b, fdt.Bytes(), end, DataSize(fdt), fdt.off_dt_struct, |s|, fdt.size_dt_struct, end - |t|, fdt.off_dt_strings, o, val);
  }

  /** The same for an insertion before the structure block, which takes the bytes `w` in. */
  lemma FrontView(fdt: Blob, b: seq<byte>, s: seq<byte>, t: seq<byte>, w: seq<byte>, end: nat, val: seq<byte>)
    requires Ready(fdt) && |b| == fdt.buf.Length && |w| <= |val| && |w| <= fdt.off_dt_struct && fdt.size_dt_struct == |s| + |val|
    requires fdt.off_dt_struct + |s| + |t| <= end <= |b| && |t| == fdt.size_dt_strings && DataSize(fdt) == end + |val|
    requires s == b[fdt.off_dt_struct..fdt.off_dt_struct + |s|] && t == b[end - |t|..end]
    requires w == b[fdt.off_dt_struct - |w|..fdt.off_dt_struct]
    requires Inserted(b[..end], fdt.Bytes()[..DataSize(fdt)], fdt.off_dt_struct - |w|, val)
    ensures fdt.Strings() == t && Before(fdt, |w|) == val[..|w|] && fdt.Struct() == val[|w|..] + w + s
  {
    hide Blob.Bytes, Blob.Struct, Blob.Strings, Inserted, Before;
    BlobViews(fdt);
    BeforeView(fdt, |w|);
    InsertedBefore(b, fdt.Bytes(), end, DataSize(fdt), fdt.off_dt_struct, |s|, fdt.size_dt_struct, end - |t|, fdt.off_dt_strings, |w|, val);
  }

  /** The `k` bytes before the structure block. */
  function Before(fdt: Blob, k: nat): seq<byte>
    requires k <= fdt.off_dt_struct <= fdt.buf.Length
    reads fdt`off_dt_struct, fdt.buf
  {
    fdt.Bytes()[fdt.off_dt_struct - k..fdt.off_dt_struct]
  }

  /** A splice without removal, and the write of what it made room for. */
  lemma InsertedBytes(b: seq<byte>, c: seq<byte>, d: seq<byte>, end: nat, p: nat, val: seq<byte>)
    requires |b| == |c| == |d| && p <= end && end + |val| <= |b|
    requires c[..p + |val|] == b[..p + |val|] && c[p + |val|..end + |val|] == b[p..end]
    requires d[..p] == c[..p] && d[p..p + |val|] == val && d[p + |val|..] == c[p + |val|..]
    ensures Inserted(b[..end], d[..end + |val|], p, val)
  {
    var m := p + |val|;
    KeptBelow(b, c, m, 0, p);
    KeptAbove(c, d, m, m, end + |val|);
    assert d[..end + |val|] == d[..p] + d[p..m] + d[m..end + |val|];
    assert b[..end][..p] == b[..p] && b[..end][p..] == b[p..end];
  }

  lemma PrefixSlice(d: seq<byte>, end: nat, i: nat, j: nat)
    requires i <= j <= end <= |d|
    ensures d[..end][i..j] == d[i..j]
  {
    assert forall k :: 0 <= k < j - i ==> d[..end][i..j][k] == d[i..j][k];
  }

  lemma InsertedParts(x: seq<byte>, y: seq<byte>, p: nat, val: seq<byte>)
    requires Inserted(x, y, p, val)
    ensures p <= |x| && |y| == |x| + |val|
    ensures y[..p] == x[..p] && y[p..p + |val|] == val && y[p + |val|..] == x[p..]
  {
  }

  /** What stands before an insertion stays, and what stands behind it moves. */
  lemma InsertedKeeps(b: seq<byte>, d: seq<byte>, end: nat, p: nat, val: seq<byte>, i: nat, j: nat)
    requires i <= j <= end <= |b| && end + |val| <= |d|
    requires Inserted(b[..end], d[..end + |val|], p, val)
    ensures p <= end && d[p..p + |val|] == val
    ensures j <= p ==> d[i..j] == b[i..j]
    ensures p <= i ==> d[i + |val|..j + |val|] == b[i..j]
  {
    var x, y, m := b[..end], d[..end + |val|], |val|;
    InsertedParts(x, y, p, val);
    hide Inserted;
    PrefixSlice(b, end, i, j);
    PrefixSlice(d, end + m, p, p + m);
    if j <= p {
      PrefixSlice(d, end + m, i, j);
      PrefixSlice(x, p, i, j);
      PrefixSlice(y, p, i, j);
    } else if p <= i {
      PrefixSlice(d, end + m, i + m, j + m);
      SliceOfSlice(x, p, end, i - p, j - p);
      SliceOfSlice(y, p + m, end + m, i - p, j - p);
      assert x[p..end] == x[p..] && y[p + m..end + m] == y[p + m..];
    }
  }

  /** An insertion inside the block from `lo` to `lo + n`, with the block from `so` on behind it. */
  lemma InsertedInside(b: seq<byte>, d: seq<byte>, end: nat, end': nat, lo: nat, n: nat, n': nat, so: nat, so': nat, o: nat, val: seq<byte>)
    requires |b| == |d| && o <= n && lo + n <= so <= end && end' == end + |val| <= |b| && n' == n + |val| && so' == so + |val|
    requires Inserted(b[..end], d[..end'], lo + o, val)
    ensures Inserted(b[lo..lo + n], d[lo..lo + n'], o, val)
    ensures d[so'..end'] == b[so..end] && d[..lo] == b[..lo]
  {
    hide Inserted;
    var m, p := |val|, lo + o;
    InsertedKeeps(b, d, end, p, val, 0, lo);
    InsertedKeeps(b, d, end, p, val, lo, p);
    InsertedKeeps(b, d, end, p, val, p, lo + n);
    InsertedKeeps(b, d, end, p, val, so, end);
    Thirds(d, lo, p, p + m, lo + n + m);
    Thirds(b, lo, p, p, lo + n);
    InsertedThree(b[lo..p], val, b[p..lo + n]);
  }

  lemma InsertedThree(a: seq<byte>, val: seq<byte>, b: seq<byte>)
    ensures Inserted(a + b, a + val + b, |a|, val)
  {
    assert (a + b)[..|a|] == a && (a + b)[|a|..] == b;
  }

  /** An insertion `k` bytes before that block. */
  lemma InsertedBefore(b: seq<byte>, d: seq<byte>, end: nat, end': nat, lo: nat, n: nat, n': nat, so: nat, so': nat, k: nat, val: seq<byte>)
    requires |b| == |d| && k <= lo && lo + n <= so <= end && end' == end + |val| <= |b| && k <= |val|
    requires n' == n + |val| && so' == so + |val|
    requires Inserted(b[..end], d[..end'], lo - k, val)
    ensures d[lo..lo + n'] == val[k..] + b[lo - k..lo] + b[lo..lo + n] && d[lo - k..lo] == val[..k]
    ensures d[so'..end'] == b[so..end]
  {
    hide Inserted;
    var m, p := |val|, lo - k;
    InsertedKeeps(b, d, end, p, val, p, lo);
    InsertedKeeps(b, d, end, p, val, lo, lo + n);
    InsertedKeeps(b, d, end, p, val, so, end);
    Thirds(d, lo, p + m, lo + m, lo + n + m);
    SliceOfSlice(d, p, p + m, k, m);
    SliceOfSlice(d, p, p + m, 0, k);
    assert val[k..m] == val[k..] && val[0..k] == val[..k];
  }

  /** Offset -1, which is what a lookup that finds nothing returns, is not told from an offset whose
      children have been searched in vain: where a node under it would go, if there is room for it. */
  predicate Misplaced(parentoffset: int, name: seq<byte>, room: int) {
    parentoffset == -FDT_ERR_NOTFOUND && |NodeBytes(name)| <= room
  }

  /** What `fdt_add_subnode_namelen` comes to for a parent that is no negative offset. */
  ghost function AddCode(items: seq<Item>, at: nat, name: seq<byte>, room: int): int
    requires at <= |items|
  {
    if !(at < |items| && items[at].Begin?) then -FDT_ERR_BADOFFSET
    else if ChildNamed(items, at + 1, 0, name).Some? then -FDT_ERR_EXISTS
    else if |NodeBytes(name)| > room then -FDT_ERR_NOSPACE
    else Off(items, PropsEnd(items, at + 1))
  }

  /** `fdt_add_subnode_namelen`: an empty node behind the parent's properties, unless the parent has a
      child that the name matches. A negative parent is returned as the error it is, but for -1: then the
      node, if it fits, overwrites the end of what stands before the structure block. */
  method AddSubnode(fdt: Blob, parentoffset: int, name: seq<byte>, ghost items: seq<Item>, ghost at: nat) returns (r: int)
    requires RwCode(fdt) == 0 ==> Editable(fdt, items) && Denotes(items, parentoffset, at)
    requires 0 !in name && |name| < MAX_STRUCT
    modifies fdt`version, fdt`size_dt_struct, fdt`off_dt_strings, fdt.buf
    ensures old(RwCode(fdt)) != 0 ==> r == old(RwCode(fdt)) && fdt.Bytes() == old(fdt.Bytes())
    ensures old(RwCode(fdt)) == 0 ==> Ready(fdt) && fdt.Strings() == old(fdt.Strings()) && fdt.totalsize == old(fdt.totalsize)
    ensures old(RwCode(fdt)) == 0 && parentoffset >= 0 ==>
              && FrontKept(fdt) && r == AddCode(items, at, name, old(fdt.totalsize - DataSize(fdt)))
              && (r < 0 ==> Editable(fdt, items) && fdt.Struct() == old(fdt.Struct()))
              && (r >= 0 ==>
                    && at < |items| && Editable(fdt, Replace(items, PropsEnd(items, at + 1), PropsEnd(items, at + 1), EmptyNode(name)))
                    && Inserted(old(fdt.Struct()), fdt.Struct(), r, NodeBytes(name))
                    && fdt.off_dt_strings == old(fdt.off_dt_strings) + |NodeBytes(name)|)
    ensures old(RwCode(fdt)) == 0 && parentoffset < 0 && !old(Misplaced(parentoffset, name, fdt.totalsize - DataSize(fdt))) ==>
              && r == (if parentoffset == -FDT_ERR_NOTFOUND then -FDT_ERR_NOSPACE else parentoffset)
              && Editable(fdt, items) && fdt.Bytes() == old(fdt.Bytes()) && fdt.Struct() == old(fdt.Struct())
    ensures old(RwCode(fdt)) == 0 && old(Misplaced(parentoffset, name, fdt.totalsize - DataSize(fdt))) ==>
              && r == -FDT_ERR_TRUNCATED && 8 <= old(fdt.off_dt_struct) <= fdt.buf.Length && |NodeBytes(name)| >= 8
              && fdt.off_dt_struct == old(fdt.off_dt_struct) && Before(fdt, 8) == NodeBytes(name)[..8]
              && fdt.Struct() == NodeBytes(name)[8..] + old(Before(fdt, 8)) + old(fdt.Struct()) != old(fdt.Struct())
  {
    hide Layout, Off, NamesOk, Align, Blob.Struct, Blob.Strings, Blob.Bytes, ChildNamed, PropsEnd, NodeBytes, Inserted, Before;
    r := RwCheckHeader(fdt);
    if r != 0 {
      return;
    }
    ghost var s := fdt.Struct();
    var offset := SubnodeOffset(fdt, parentoffset, name, items, at);
    if offset >= 0 {
      return -FDT_ERR_EXISTS;
    } else if offset != -FDT_ERR_NOTFOUND {
      return offset;
    }
    offset := SkipProperties(fdt, parentoffset, items, at);
    ghost var k := PropsEnd(items, at);
    if parentoffset >= 0 {
      k := PropsEnd(items, at + 1);
      OffAligned(s, items, k);
    }
    AlignBound(|name| + 1);
    var err := PlaceNode(fdt, offset, name);
    if err != 0 {
      return err;
    }
    if parentoffset >= 0 {
      AddedLayout(s, fdt.Struct(), items, k, name);
      NamesAdded(items, k, name, fdt.Strings());
    }
    return offset;
  }

  /** The loop that passes a node's properties. From a negative offset it comes to the error of a tag
      that is not there. */
  method SkipProperties(fdt: Blob, parentoffset: int, ghost items: seq<Item>, ghost at: nat) returns (offset: int)
    requires Holds(fdt, items) && Denotes(items, parentoffset, at) && (parentoffset >= 0 ==> at < |items|)
    ensures offset == if parentoffset < 0 then -FDT_ERR_TRUNCATED else Off(items, PropsEnd(items, at + 1))
  {
    hide U32, NextTag, Align, Layout, Off;
    ghost var s := fdt.Struct();
    OffAligned(s, items, at);
    BeforeTheBlock(s, parentoffset);
    BeforeTheBlock(s, -FDT_ERR_TRUNCATED);
    if parentoffset >= 0 {
      WalkIsItems(s, items, at);
      WalkIsItems(s, items, at + 1);
      OffAligned(s, items, at + 1);
    }
    var tag, nextoffset := ReadTag(fdt, parentoffset);
    ghost var k := at + 1;
    offset := nextoffset;
    tag, nextoffset := ReadTag(fdt, offset);
    while tag == FDT_PROP || tag == FDT_NOP
      invariant parentoffset < 0 ==> offset == -FDT_ERR_TRUNCATED && tag == FDT_END
      invariant parentoffset >= 0 ==> k <= |items| && offset == Off(items, k) && PropsEnd(items, k) == PropsEnd(items, at + 1)
      invariant parentoffset >= 0 ==> offset < 0x8000_0000 && Tag(tag, nextoffset) == NextTag(s, offset)
      decreases |items| - k
    {
      WalkIsItems(s, items, k);
      WalkIsItems(s, items, k + 1);
      OffAligned(s, items, k + 1);
      offset := nextoffset;
      k := k + 1;
      tag, nextoffset := ReadTag(fdt, offset);
    }
    if parentoffset >= 0 {
      WalkIsItems(s, items, k);
    }
  }

  lemma BeforeTheBlock(s: seq<byte>, offset: int)
    requires |s| <= MAX_STRUCT && -0x8000_0000 <= offset < 0x8000_0000
    ensures offset < 0 ==> NextTag(s, offset) == Tag(FDT_END, -FDT_ERR_TRUNCATED)
  {
    hide OffsetOk, U32;
    OffsetOkMeans(|s|, offset, FDT_TAGSIZE);
  }

  lemma {:induction false} AddedLayout(s: seq<byte>, u: seq<byte>, items: seq<Item>, k: nat, name: seq<byte>)
    requires Layout(s, items) && k <= |items| && 0 !in name && |u| <= MAX_STRUCT
    requires Inserted(s, u, Off(items, k), NodeBytes(name))
    ensures Layout(u, Replace(items, k, k, EmptyNode(name)))
  {
    hide Layout, U32, Align, NodeBytes;
    var o, val := Off(items, k), NodeBytes(name);
    assert u[..o] == s[..o] && u[o..o + |val|] == val && u[o + |val|..] == s[o..];
    EmptyNodeSits(u, o, name);
    var mid := EmptyNode(name);
    assert |mid| == 2;
    hide EmptyNode, Inserted;
    forall i | 0 <= i < |mid| ensures SitsFrom(u, o, mid, i) {
    }
    assert Same(s, 0, u, 0, o) && Same(s, o, u, o + Off(mid, 2), |s| - o);
    SpliceLayout(s, u, items, k, k, mid);
  }

  lemma NamesAdded(items: seq<Item>, k: nat, name: seq<byte>, table: seq<byte>)
    requires k <= |items| && NamesOk(items, table)
    ensures NamesOk(Replace(items, k, k, EmptyNode(name)), table)
  {
    hide Terminated;
    var r := Replace(items, k, k, EmptyNode(name));
    forall m | 0 <= m < |r| && r[m].Prop? ensures Terminated(table, r[m].nameoff) {
      if m < k {
        assert r[m] == items[m];
      } else if m >= k + 2 {
        assert r[m] == items[m - 2];
      }
    }
  }
}
