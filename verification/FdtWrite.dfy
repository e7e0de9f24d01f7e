/** The sequential writer of lib/libfdt/fdt_sw.c: the structure block grows upwards, the strings
    block downwards from the end of the buffer. */
module FdtWrite {
  import opened Wrappers
  import opened FdtFormat
  import opened FdtBlob
  import opened FdtStrings
  import opened FdtTraverse
  import opened FdtRead

  // ----- what has been written so far -----

  /** The block holds exactly the items. */
  ghost predicate Filled(s: seq<byte>, items: seq<Item>) {
    && |s| == Off(items, |items|) && |s| % 4 == 0
    && forall i {:trigger ItemSits(s, items, i)} :: 0 <= i < |items| ==> ItemSits(s, items, i)
  }

  /** The item records the call; a property's name offset counts back from the end of the strings. */
  ghost predicate Records(it: Item, call: Token, table: seq<byte>) {
    match call
    case BeginNode(name) => it.Begin? && it.name == name
    case Property(name, value) =>
      && it.Prop? && it.value == value
      && U32_SPAN - |table| <= it.nameoff < U32_SPAN
      && var o := it.nameoff - (U32_SPAN - |table|);
         Terminated(table, o) && StringAt(table, o) == name
    case EndOfNode => it == EndNode
  }

  ghost predicate RecordsAll(items: seq<Item>, calls: seq<Token>, table: seq<byte>) {
    && |items| == |calls|
    && forall i {:trigger Records(items[i], calls[i], table)} :: 0 <= i < |items| ==> Records(items[i], calls[i], table)
  }

  /** The strings written so far. */
  function Table(fdt: Blob): (t: seq<byte>)
    requires fdt.size_dt_strings <= fdt.totalsize <= fdt.buf.Length
    reads fdt, fdt.buf
    ensures |t| == fdt.size_dt_strings
  {
    fdt.Bytes()[fdt.totalsize - fdt.size_dt_strings..fdt.totalsize]
  }

  /** There is room for the strings behind the start of the structure block. */
  predicate Sound(fdt: Blob)
    reads fdt
  {
    fdt.off_dt_struct + fdt.size_dt_strings <= fdt.totalsize
  }

  /** What every blob of the writer has in common, sound or not: a small buffer, or a reservation map that
      has run into a name left behind by a failed call, give unsound ones. */
  ghost predicate Started(fdt: Blob)
    reads fdt
  {
    && fdt.version == FDT_LAST_SUPPORTED_VERSION && fdt.last_comp_version == FDT_FIRST_SUPPORTED_VERSION
    && fdt.off_mem_rsvmap == 48 <= fdt.off_dt_struct
    && fdt.size_dt_strings <= fdt.totalsize == fdt.buf.Length <= MAX_STRUCT
    && fdt.off_dt_struct + fdt.size_dt_struct <= (if fdt.totalsize < 48 then 48 else fdt.totalsize + 3)
    && (Sound(fdt) ==> fdt.off_dt_struct + fdt.size_dt_struct + fdt.size_dt_strings <= fdt.totalsize)
  }

  /** The blocks do not meet and stay inside the buffer. */
  ghost predicate SwBounds(fdt: Blob)
    reads fdt
  {
    Started(fdt) && Sound(fdt)
  }

  /** An unfinished blob to which the calls `calls` have been made. */
  ghost predicate Writing(fdt: Blob, items: seq<Item>, calls: seq<Token>)
    reads fdt, fdt.buf
  {
    && SwBounds(fdt) && fdt.magic == FDT_SW_MAGIC
    && Filled(fdt.Struct(), items)
    && RecordsAll(items, calls, Table(fdt))
  }

  /** An unfinished blob, sound or not; the calls are those made to a sound one. */
  ghost predicate Begun(fdt: Blob, items: seq<Item>, calls: seq<Token>)
    reads fdt, fdt.buf
  {
    Started(fdt) && fdt.magic == FDT_SW_MAGIC && (Sound(fdt) ==> Writing(fdt, items, calls))
  }

  /** Stands for the outcome of a call that writes outside of the buffer; of what it leaves, and of what
      it returns, nothing is said. No error code is positive. */
  const STRAY := 1

  /** The bytes of the memory reservation block so far. */
  function Reserved(fdt: Blob): seq<byte>
    requires 48 <= fdt.off_dt_struct <= fdt.buf.Length
    reads fdt, fdt.buf
  {
    fdt.Bytes()[48..fdt.off_dt_struct]
  }

  // ----- freshly written items -----

  lemma WordAt(s: seq<byte>, o: nat, val: seq<byte>, i: nat, v: nat)
    requires o + |val| <= |s| && s[o..o + |val|] == val && i + 4 <= |val| && v < U32_SPAN && val[i..i + 4] == Put32(v)
    ensures U32(s, o + i) == v
  {
    SliceOfSlice(s, o, o + |val|, i, i + 4);
    U32Within(s, Put32(v), o + i, 0);
  }

  lemma FreshBegin(s: seq<byte>, o: nat, name: seq<byte>)
    requires 0 !in name && o + 4 + Align(|name| + 1) <= |s|
    requires s[o..o + 4 + |name| + 1] == Put32(FDT_BEGIN_NODE) + CString(name)
    ensures var pad := s[o + 5 + |name|..o + 4 + Align(|name| + 1)];
            Sits(s, o, Begin(name, pad)) && Begin(name, pad).Size() == 4 + Align(|name| + 1)
  {
    hide U32;
    var val := Put32(FDT_BEGIN_NODE) + CString(name);
    assert val[0..4] == Put32(FDT_BEGIN_NODE) && val[4..4 + |name|] == name && val[4 + |name|] == 0;
    WordAt(s, o, val, 0, FDT_BEGIN_NODE);
    SliceOfSlice(s, o, o + |val|, 4, 4 + |name|);
    assert s[o + 4 + |name|] == s[o..o + |val|][4 + |name|];
  }

  lemma FreshProp(s: seq<byte>, o: nat, nameoff: nat, value: seq<byte>)
    requires nameoff < U32_SPAN && |value| <= MAX_STRUCT && o + 12 + Align(|value|) <= |s|
    requires s[o..o + 12 + |value|] == Put32(FDT_PROP) + Put32(|value|) + Put32(nameoff) + value
    ensures var pad := s[o + 12 + |value|..o + 12 + Align(|value|)];
            Sits(s, o, Prop(nameoff, value, pad)) && Prop(nameoff, value, pad).Size() == 12 + Align(|value|)
  {
    hide U32;
    var val := Put32(FDT_PROP) + Put32(|value|) + Put32(nameoff) + value;
    assert val[0..4] == Put32(FDT_PROP) && val[4..8] == Put32(|value|) && val[8..12] == Put32(nameoff) && val[12..] == value;
    WordAt(s, o, val, 0, FDT_PROP);
    WordAt(s, o, val, 4, |value|);
    WordAt(s, o, val, 8, nameoff);
    SliceOfSlice(s, o, o + |val|, 12, 12 + |value|);
  }

  lemma {:induction false} FilledOff(s: seq<byte>, items: seq<Item>, i: nat, j: nat)
    requires i <= j <= |items|
    ensures Off(items, i) <= Off(items, j)
    decreases j
  {
    if i < j {
      FilledOff(s, items, i, j - 1);
    }
  }

  lemma FilledAppend(s: seq<byte>, t: seq<byte>, items: seq<Item>, it: Item)
    requires Filled(s, items) && |t| == |s| + it.Size() && t[..|s|] == s && Sits(t, |s|, it)
    ensures Filled(t, items + [it])
  {
    hide U32;
    var r := items + [it];
    OffPrefix(items, [it], |items|);
    it.Aligned();
    hide Sits, Item.Size, Align, PadLen, Item.Ok;
    forall i | 0 <= i < |r| ensures ItemSits(t, r, i) {
      OffPrefix(items, [it], if i < |items| then i else |items|);
      if i < |items| {
        assert ItemSits(s, items, i);
        FilledOff(s, items, i + 1, |items|);
        var a, n := Off(items, i), items[i].Size();
        assert a + n == Off(items, i + 1);
        SliceOfSlice(t, 0, |s|, a, a + n);
        SitsMoved(s, a, t, a, items[i]);
        assert r[i] == items[i];
      }
    }
    Multiple4(|s|, it.Size());
  }

  lemma RecordsAppend(items: seq<Item>, calls: seq<Token>, table: seq<byte>, it: Item, call: Token)
    requires RecordsAll(items, calls, table) && Records(it, call, table)
    ensures RecordsAll(items + [it], calls + [call], table)
  {
    hide Records;
    var r, c := items + [it], calls + [call];
    forall i | 0 <= i < |r| ensures Records(r[i], c[i], table) {
      if i < |items| {
        assert Records(items[i], calls[i], table);
      }
    }
  }

  /** Strings are added in front, so offsets counted from the end stay good. */
  lemma RecordsGrow(items: seq<Item>, calls: seq<Token>, table: seq<byte>, more: seq<byte>)
    requires RecordsAll(items, calls, table) && |table| + |more| < U32_SPAN
    ensures RecordsAll(items, calls, more + table)
  {
    hide Records;
    forall i | 0 <= i < |items| ensures Records(items[i], calls[i], more + table) {
      assert Records(items[i], calls[i], table);
      RecordGrows(items[i], calls[i], table, more);
    }
  }

  lemma RecordGrows(it: Item, call: Token, table: seq<byte>, more: seq<byte>)
    requires Records(it, call, table) && |table| + |more| < U32_SPAN
    ensures Records(it, call, more + table)
  {
    hide Terminated, StringAt;
    if it.Prop? {
      StringShifted(table, more, it.nameoff - (U32_SPAN - |table|));
    }
  }

  lemma StringShifted(table: seq<byte>, more: seq<byte>, o: nat)
    requires Terminated(table, o)
    ensures Terminated(more + table, |more| + o) && StringAt(more + table, |more| + o) == StringAt(table, o)
  {
    var e := NameEnd(table, o);
    assert forall j :: o <= j <= e ==> (more + table)[|more| + j] == table[j];
    forall j | |more| + o <= j < |more| + e ensures (more + table)[j] != 0 {
      assert (more + table)[j] == table[j - |more|];
    }
    assert NameEnd(more + table, |more| + o) == |more| + e;
    assert (more + table)[|more| + o..|more| + e] == table[o..e];
  }

  // ----- frames -----

  lemma KeptBelow(b: seq<byte>, c: seq<byte>, p: nat, lo: nat, hi: nat)
    requires lo <= hi <= p <= |b| && p <= |c| && c[..p] == b[..p]
    ensures c[lo..hi] == b[lo..hi]
  {
    SliceOfSlice(b, 0, p, lo, hi);
    SliceOfSlice(c, 0, p, lo, hi);
  }

  lemma KeptAbove(b: seq<byte>, c: seq<byte>, p: nat, lo: nat, hi: nat)
    requires p <= lo <= hi <= |b| && |c| == |b| && c[p..] == b[p..]
    ensures c[lo..hi] == b[lo..hi]
  {
    SliceOfSlice(b, p, |b|, lo - p, hi - p);
    SliceOfSlice(c, p, |b|, lo - p, hi - p);
  }

  lemma BytesPut(b: seq<byte>, c: seq<byte>, lo: nat, n: nat, o: nat, m: nat)
    requires |b| == |c| && o + m <= n && lo + n <= |b|
    requires c[..lo + o] == b[..lo + o] && c[lo + o + m..] == b[lo + o + m..]
    ensures c[lo..lo + n][..o] == b[lo..lo + n][..o]
    ensures c[lo..lo + n][o..o + m] == c[lo + o..lo + o + m]
    ensures c[lo..lo + n][o + m..] == b[lo..lo + n][o + m..]
  {
    SliceOfSlice(c, lo, lo + n, 0, o);
    SliceOfSlice(b, lo, lo + n, 0, o);
    KeptBelow(b, c, lo + o, lo, lo + o);
    SliceOfSlice(c, lo, lo + n, o, o + m);
    SliceOfSlice(c, lo, lo + n, o + m, n);
    SliceOfSlice(b, lo, lo + n, o + m, n);
    KeptAbove(b, c, lo + o + m, lo + o + m, lo + n);
  }

  // ----- the writer -----

  /** `fdt_create`. The structure block of a blob of fewer than 48 bytes starts behind its end. */
  method Create(fdt: Blob, bufsize: nat) returns (r: int)
    requires bufsize == fdt.buf.Length <= MAX_STRUCT
    modifies fdt, fdt.buf
    ensures r == if bufsize < HEADER_SIZE then -FDT_ERR_NOSPACE else 0
    ensures r == 0 ==> fdt.magic == FDT_SW_MAGIC && fdt.totalsize == bufsize && fdt.off_dt_struct == 48
    ensures r == 0 ==> fdt.size_dt_struct == fdt.size_dt_strings == 0 && fdt.off_dt_strings == bufsize
    ensures r == 0 ==> forall k :: HEADER_SIZE <= k < bufsize ==> fdt.buf[k] == 0
    ensures r != 0 ==> fdt.Bytes() == old(fdt.Bytes())
    ensures r == 0 ==> Begun(fdt, [], []) && (Sound(fdt) <==> bufsize >= 48)
    ensures bufsize >= 48 ==> Writing(fdt, [], []) && fdt.size_dt_struct == fdt.size_dt_strings == 0 && Reserved(fdt) == []
  {
    if bufsize < HEADER_SIZE {
      return -FDT_ERR_NOSPACE;
    }
    var i := 0;
    while i < bufsize
      invariant i <= bufsize && forall k :: 0 <= k < i ==> fdt.buf[k] == 0
      modifies fdt.buf
    {
      fdt.buf[i] := 0;
      i := i + 1;
    }
    fdt.size_dt_struct, fdt.size_dt_strings := 0, 0;
    fdt.magic := FDT_SW_MAGIC;
    fdt.version := FDT_LAST_SUPPORTED_VERSION;
    fdt.last_comp_version := FDT_FIRST_SUPPORTED_VERSION;
    fdt.totalsize := bufsize;
    fdt.off_mem_rsvmap := (HEADER_SIZE + RESERVE_ENTRY_SIZE - 1) / RESERVE_ENTRY_SIZE * RESERVE_ENTRY_SIZE;
    fdt.off_dt_struct := fdt.off_mem_rsvmap;
    fdt.off_dt_strings := bufsize;
    return 0;
  }

  const U64_SPAN := 0x1_0000_0000_0000_0000

  function Put64(v: nat): (s: seq<byte>)
    requires v < U64_SPAN
    ensures |s| == 8
  {
    Put32(v / U32_SPAN) + Put32(v % U32_SPAN)
  }

  /** The more significant word comes first. */
  lemma Put64Words(v: nat)
    requires v < U64_SPAN
    ensures U32(Put64(v), 0) * U32_SPAN + U32(Put64(v), 4) == v
  {
    var s := Put64(v);
    assert s[0..4] == Put32(v / U32_SPAN)[0..4] && s[4..8] == Put32(v % U32_SPAN)[0..4];
    U32Within(s, Put32(v / U32_SPAN), 0, 0);
    U32Within(s, Put32(v % U32_SPAN), 4, 0);
  }

  /** What `fdt_add_reservemap_entry` returns. */
  function ReserveCode(fdt: Blob): int
    reads fdt
  {
    if fdt.magic != FDT_SW_MAGIC then -FDT_ERR_BADMAGIC
    else if fdt.size_dt_struct != 0 then -FDT_ERR_BADSTATE
    else if fdt.off_dt_struct + RESERVE_ENTRY_SIZE > fdt.totalsize then -FDT_ERR_NOSPACE
    else 0
  }

  /** `fdt_add_reservemap_entry`. A name that a failed `fdt_property` left behind is not looked out for:
      the blob stays a good one exactly when the entry does not reach the strings. */
  method AddReserveEntry(fdt: Blob, addr: nat, size: nat) returns (r: int)
    requires fdt.totalsize <= fdt.buf.Length && addr < U64_SPAN && size < U64_SPAN
    modifies fdt`off_dt_struct, fdt.buf
    ensures r == old(ReserveCode(fdt))
    ensures r == -FDT_ERR_BADMAGIC <==> fdt.magic != FDT_SW_MAGIC
    ensures r == -FDT_ERR_BADSTATE <==> fdt.magic == FDT_SW_MAGIC && fdt.size_dt_struct != 0
    ensures r == 0 <==> fdt.magic == FDT_SW_MAGIC && fdt.size_dt_struct == 0 && old(fdt.off_dt_struct) + 16 <= fdt.totalsize
    ensures r != 0 ==> fdt.off_dt_struct == old(fdt.off_dt_struct) && fdt.Bytes() == old(fdt.Bytes())
    ensures r == 0 ==>
              var o := old(fdt.off_dt_struct);
              && fdt.off_dt_struct == o + RESERVE_ENTRY_SIZE <= fdt.buf.Length
              && fdt.Bytes()[..o] == old(fdt.Bytes())[..o] && fdt.Bytes()[o..o + RESERVE_ENTRY_SIZE] == Put64(addr) + Put64(size)
              && fdt.Bytes()[o + RESERVE_ENTRY_SIZE..] == old(fdt.Bytes())[o + RESERVE_ENTRY_SIZE..]
    ensures r == 0 && old(Begun(fdt, [], [])) ==> Begun(fdt, [], []) && (Sound(fdt) ==> old(Sound(fdt)))
    ensures r == 0 && old(Writing(fdt, [], [])) ==>
              && (Writing(fdt, [], []) <==> fdt.off_dt_struct + fdt.size_dt_strings <= fdt.totalsize)
              && Reserved(fdt) == old(Reserved(fdt)) + Put64(addr) + Put64(size)
  {
    hide Put64;
    r := ReserveCode(fdt);
    if r != 0 {
      return;
    }
    var offset := fdt.off_dt_struct;
    ghost var b := fdt.Bytes();
    MemCpy(fdt.buf, offset, Put64(addr) + Put64(size));
    fdt.off_dt_struct := offset + RESERVE_ENTRY_SIZE;
    ghost var c := fdt.Bytes();
    if offset >= 48 {
      KeptBelow(b, c, offset, 48, offset);
      assert c[48..offset + 16] == c[48..offset] + c[offset..offset + 16];
    }
  }

  /** What `_fdt_grab_space` takes for the room left: a difference that is negative on an unsound blob,
      converted to an unsigned number. */
  function SpaceLeft(fdt: Blob): (n: nat)
    reads fdt
    ensures n < U32_SPAN
  {
    (fdt.totalsize - fdt.off_dt_struct - fdt.size_dt_strings) % U32_SPAN
  }

  /** Of `len` bytes, `_fdt_grab_space` says rightly whether they fit. */
  ghost predicate SaysRightly(fdt: Blob, len: nat)
    reads fdt
  {
    fdt.size_dt_struct + len > SpaceLeft(fdt) <==>
    fdt.off_dt_struct + fdt.size_dt_struct + len + fdt.size_dt_strings > fdt.totalsize
  }

  /** It does so exactly on the sound blobs. */
  lemma RightIffSound(fdt: Blob)
    requires Started(fdt)
    ensures (forall len: nat {:trigger SaysRightly(fdt, len)} :: len < U32_SPAN ==> SaysRightly(fdt, len)) <==> Sound(fdt)
  {
    if !Sound(fdt) {
      assert !SaysRightly(fdt, 0);
    }
  }

  /** `_fdt_grab_space`: the offset of `len` new bytes at the end of the structure block, -1 for NULL. */
  method GrabSpace(fdt: Blob, len: nat) returns (off: int)
    requires Started(fdt) && len < U32_SPAN
    modifies fdt`size_dt_struct
    ensures off == -1 <==> old(fdt.size_dt_struct) + len > SpaceLeft(fdt)
    ensures off == -1 ==> fdt.size_dt_struct == old(fdt.size_dt_struct)
    ensures off != -1 ==> off == old(fdt.size_dt_struct) && fdt.size_dt_struct == off + len
    ensures old(Sound(fdt)) ==>
              && (off == -1 <==> fdt.off_dt_struct + old(fdt.size_dt_struct) + len + fdt.size_dt_strings > fdt.totalsize)
              && SwBounds(fdt) && Table(fdt) == old(Table(fdt)) && Reserved(fdt) == old(Reserved(fdt))
              && (off != -1 ==> fdt.Struct()[..off] == old(fdt.Struct()))
  {
    var offset := fdt.size_dt_struct;
    var spaceleft := fdt.totalsize - fdt.off_dt_struct - fdt.size_dt_strings;
    var end := (offset + len) % U32_SPAN;
    if end < offset || end > spaceleft % U32_SPAN {
      return -1;
    }
    if Sound(fdt) {
      GrownStruct(fdt.Bytes(), fdt.off_dt_struct, offset, end);
    }
    fdt.size_dt_struct := end;
    return offset;
  }

  /** The bytes `val` have been put at `p`, and no others changed. */
  ghost predicate PutAt(b: seq<byte>, c: seq<byte>, p: nat, val: seq<byte>) {
    && |c| == |b| && p + |val| <= |b|
    && c[..p] == b[..p] && c[p..p + |val|] == val && c[p + |val|..] == b[p + |val|..]
  }

  /** Writes the bytes `val` of a new item at offset `off` of the structure block, if that is inside the
      buffer. */
  method Emit(fdt: Blob, off: nat, val: seq<byte>) returns (inside: bool)
    modifies fdt.buf
    ensures inside <==> fdt.off_dt_struct + off + |val| <= fdt.buf.Length
    ensures inside ==> PutAt(old(fdt.Bytes()), fdt.Bytes(), fdt.off_dt_struct + off, val)
    ensures SwBounds(fdt) && off + |val| <= fdt.size_dt_struct ==>
              && inside && fdt.Struct()[..off] == old(fdt.Struct())[..off] && fdt.Struct()[off..off + |val|] == val
              && Table(fdt) == old(Table(fdt)) && Reserved(fdt) == old(Reserved(fdt))
  {
    hide Blob.Bytes, PutAt;
    ghost var b := fdt.Bytes();
    var p := fdt.off_dt_struct + off;
    inside := p + |val| <= fdt.buf.Length;
    if inside {
      PutBytes(fdt, p, val);
      ghost var c := fdt.Bytes();
      PutMeans(b, c, p, val);
      if SwBounds(fdt) && off + |val| <= fdt.size_dt_struct {
        PutParts(b, c, fdt.off_dt_struct, fdt.size_dt_struct, off, val, fdt.size_dt_strings);
      }
    }
  }

  lemma PutMeans(b: seq<byte>, c: seq<byte>, p: nat, val: seq<byte>)
    requires |c| == |b| && p + |val| <= |b|
    ensures PutAt(b, c, p, val) <==> c[..p] == b[..p] && c[p..p + |val|] == val && c[p + |val|..] == b[p + |val|..]
  {
  }

  /** Bytes put into the structure block, of `n` bytes from `lo` on, leave the map and the strings. */
  lemma PutParts(b: seq<byte>, c: seq<byte>, lo: nat, n: nat, off: nat, val: seq<byte>, strings: nat)
    requires PutAt(b, c, lo + off, val) && 48 <= lo && off + |val| <= n && lo + n + strings <= |b|
    ensures c[lo..lo + n][..off] == b[lo..lo + n][..off] && c[lo..lo + n][off..off + |val|] == val
    ensures c[48..lo] == b[48..lo] && c[|b| - strings..|b|] == b[|b| - strings..|b|]
  {
    BytesPut(b, c, lo, n, off, |val|);
    KeptBelow(b, c, lo + off, 48, lo);
    KeptAbove(b, c, lo + off + |val|, |b| - strings, |b|);
  }

  /** The bytes a call adds to the structure block. */
  function CallSize(call: Token): nat {
    match call
    case BeginNode(name) => 4 + Align(|name| + 1)
    case Property(_, value) => 12 + Align(|value|)
    case EndOfNode => 4
  }

  /** The strings block after a call: a name is put in front unless it is there. */
  ghost function TableWith(table: seq<byte>, call: Token): (t: seq<byte>)
    ensures |t| >= |table|
  {
    if call.Property? && !Stands(table, call.name) then CString(call.name) + table else table
  }

  /** There is room for what a call adds. */
  ghost predicate RoomFor(fdt: Blob, call: Token)
    requires SwBounds(fdt)
    reads fdt, fdt.buf
  {
    fdt.off_dt_struct + fdt.size_dt_struct + CallSize(call) + |TableWith(Table(fdt), call)| <= fdt.totalsize
  }

  /** What a call returns that adds `len` bytes to the structure block and writes the first `n` of them. */
  function PutCode(fdt: Blob, len: nat, n: nat): int
    reads fdt
  {
    if fdt.magic != FDT_SW_MAGIC then -FDT_ERR_BADMAGIC
    else if fdt.size_dt_struct + len > SpaceLeft(fdt) then -FDT_ERR_NOSPACE
    else if fdt.off_dt_struct + fdt.size_dt_struct + n > fdt.buf.Length then STRAY
    else 0
  }

  /** On a sound blob no such call strays: it succeeds exactly when the bytes fit. */
  lemma SoundCode(fdt: Blob, len: nat, n: nat)
    requires SwBounds(fdt) && fdt.magic == FDT_SW_MAGIC && n <= len < U32_SPAN
    ensures PutCode(fdt, len, n) ==
            if fdt.off_dt_struct + fdt.size_dt_struct + len + fdt.size_dt_strings <= fdt.totalsize then 0 else -FDT_ERR_NOSPACE
  {
  }

  /** On an unsound one, what does not stray and does not fail leaves a blob that is still unsound. */
  lemma StillStarted(fdt: Blob, off: nat, n: nat)
    requires fdt.version == FDT_LAST_SUPPORTED_VERSION && fdt.last_comp_version == FDT_FIRST_SUPPORTED_VERSION
    requires fdt.off_mem_rsvmap == 48 <= fdt.off_dt_struct && !Sound(fdt)
    requires fdt.size_dt_strings <= fdt.totalsize == fdt.buf.Length <= MAX_STRUCT
    requires fdt.off_dt_struct + off + n <= fdt.buf.Length && fdt.size_dt_struct <= off + n + 3
    ensures Started(fdt)
  {
  }

  /** Grabs `len` bytes at the end of the structure block and writes the first of them, as every call
      does. */
  method Put(fdt: Blob, len: nat, val: seq<byte>) returns (r: int)
    requires Started(fdt) && fdt.magic == FDT_SW_MAGIC && |val| <= len <= |val| + 3 && len < U32_SPAN
    modifies fdt`size_dt_struct, fdt.buf
    ensures r == old(PutCode(fdt, len, |val|))
    ensures r < 0 ==> fdt.size_dt_struct == old(fdt.size_dt_struct) && fdt.Bytes() == old(fdt.Bytes())
    ensures r == 0 ==>
              && Started(fdt) && fdt.size_dt_struct == old(fdt.size_dt_struct) + len
              && PutAt(old(fdt.Bytes()), fdt.Bytes(), fdt.off_dt_struct + old(fdt.size_dt_struct), val)
    ensures old(Sound(fdt)) ==>
              && r == (if old(fdt.off_dt_struct + fdt.size_dt_struct + len + fdt.size_dt_strings <= fdt.totalsize) then 0 else -FDT_ERR_NOSPACE)
              && SwBounds(fdt) && Table(fdt) == old(Table(fdt)) && Reserved(fdt) == old(Reserved(fdt))
              && (r == 0 ==>
                    var n := old(fdt.size_dt_struct);
                    fdt.Struct()[..n] == old(fdt.Struct()) && fdt.Struct()[n..n + |val|] == val)
  {
    hide Table, Reserved, Blob.Struct, Blob.Bytes, PutAt;
    if Sound(fdt) {
      SoundCode(fdt, len, |val|);
    }
    var off := GrabSpace(fdt, len);
    if off == -1 {
      return -FDT_ERR_NOSPACE;
    }
    var inside := Emit(fdt, off, val);
    if !inside {
      return STRAY;
    }
    if !Sound(fdt) {
      StillStarted(fdt, off, |val|);
    }
    return 0;
  }

  /** `fdt_begin_node`. */
  method AddBeginNode(fdt: Blob, name: seq<byte>, ghost items: seq<Item>, ghost calls: seq<Token>)
    returns (r: int, ghost items': seq<Item>)
    requires fdt.magic == FDT_SW_MAGIC ==> Begun(fdt, items, calls)
    requires 0 !in name && |name| < MAX_STRUCT - 8
    modifies fdt`size_dt_struct, fdt.buf
    ensures r == old(PutCode(fdt, CallSize(BeginNode(name)), 5 + |name|))
    ensures r < 0 ==> fdt.size_dt_struct == old(fdt.size_dt_struct) && fdt.Bytes() == old(fdt.Bytes())
    ensures r == 0 ==>
              && Begun(fdt, items', calls + [BeginNode(name)])
              && fdt.size_dt_struct == old(fdt.size_dt_struct) + CallSize(BeginNode(name))
              && PutAt(old(fdt.Bytes()), fdt.Bytes(), fdt.off_dt_struct + old(fdt.size_dt_struct), Put32(FDT_BEGIN_NODE) + CString(name))
    ensures old(fdt.magic == FDT_SW_MAGIC && Sound(fdt)) ==>
              && r == (if old(RoomFor(fdt, BeginNode(name))) then 0 else -FDT_ERR_NOSPACE)
              && SwBounds(fdt) && Table(fdt) == old(Table(fdt)) && Reserved(fdt) == old(Reserved(fdt))
  {
    hide U32, Align, Filled, RecordsAll, Sits, Table, Reserved, Blob.Bytes;
    items' := items;
    if fdt.magic != FDT_SW_MAGIC {
      return -FDT_ERR_BADMAGIC, items;
    }
    var namelen := |name| + 1;
    AlignBound(namelen);
    ghost var sound, nh := Sound(fdt), fdt.size_dt_struct;
    ghost var s := if sound then fdt.Struct() else [];
    NameUnused(if sound then Table(fdt) else [], BeginNode(name));
    r := Put(fdt, 4 + Align(namelen), Put32(FDT_BEGIN_NODE) + CString(name));
    if sound && r == 0 {
      FreshBegin(fdt.Struct(), nh, name);
      ghost var it := Begin(name, fdt.Struct()[nh + 5 + |name|..nh + 4 + Align(namelen)]);
      FilledAppend(s, fdt.Struct(), items, it);
      RecordsAppend(items, calls, Table(fdt), it, BeginNode(name));
      items' := items + [it];
    }
  }

  /** Calls without a property's name leave the strings alone. */
  lemma NameUnused(table: seq<byte>, call: Token)
    requires !call.Property?
    ensures TableWith(table, call) == table
  {
  }

  lemma AlignBound(n: nat)
    ensures n <= Align(n) < n + 4
  {
  }

  lemma GrownStruct(b: seq<byte>, o: nat, n: nat, m: nat)
    requires n <= m && o + m <= |b|
    ensures b[o..o + m][..n] == b[o..o + n]
  {
    SliceOfSlice(b, o, o + m, 0, n);
  }

  /** `fdt_end_node`. */
  method AddEndNode(fdt: Blob, ghost items: seq<Item>, ghost calls: seq<Token>)
    returns (r: int, ghost items': seq<Item>)
    requires fdt.magic == FDT_SW_MAGIC ==> Begun(fdt, items, calls)
    modifies fdt`size_dt_struct, fdt.buf
    ensures r == old(PutCode(fdt, 4, 4))
    ensures r < 0 ==> fdt.size_dt_struct == old(fdt.size_dt_struct) && fdt.Bytes() == old(fdt.Bytes())
    ensures r == 0 ==>
              && Begun(fdt, items', calls + [EndOfNode]) && fdt.size_dt_struct == old(fdt.size_dt_struct) + CallSize(EndOfNode)
              && PutAt(old(fdt.Bytes()), fdt.Bytes(), fdt.off_dt_struct + old(fdt.size_dt_struct), Put32(FDT_END_NODE))
    ensures old(fdt.magic == FDT_SW_MAGIC && Sound(fdt)) ==>
              && r == (if old(RoomFor(fdt, EndOfNode)) then 0 else -FDT_ERR_NOSPACE)
              && SwBounds(fdt) && Table(fdt) == old(Table(fdt)) && Reserved(fdt) == old(Reserved(fdt))
  {
    hide U32, Filled, RecordsAll, Table, Reserved, Blob.Bytes;
    items' := items;
    if fdt.magic != FDT_SW_MAGIC {
      return -FDT_ERR_BADMAGIC, items;
    }
    ghost var sound, en := Sound(fdt), fdt.size_dt_struct;
    ghost var s := if sound then fdt.Struct() else [];
    NameUnused(if sound then Table(fdt) else [], EndOfNode);
    r := Put(fdt, FDT_TAGSIZE, Put32(FDT_END_NODE));
    if sound && r == 0 {
      U32Within(fdt.Struct(), Put32(FDT_END_NODE), en, 0);
      FilledAppend(s, fdt.Struct(), items, EndNode);
      RecordsAppend(items, calls, Table(fdt), EndNode, EndOfNode);
      items' := items + [EndNode];
    }
  }

  lemma ArraySlice(a: array<byte>, lo: nat, hi: nat, p: nat, len: nat)
    requires lo <= hi <= a.Length && p + len <= hi - lo
    ensures a[lo + p..lo + p + len] == a[lo..hi][p..p + len]
  {
    SliceOfSlice(a[..], lo, hi, p, p + len);
  }

  /** `_fdt_find_string` in the bytes of `a` from `lo` to `hi`: the first place where the string and its
      NUL stand, or a negative number. */
  method FindString(a: array<byte>, lo: nat, hi: nat, name: seq<byte>) returns (r: int)
    requires lo <= hi <= a.Length
    ensures r < 0 <==> !Stands(a[lo..hi], name)
    ensures r >= 0 ==> StandsAt(a[lo..hi], name, r) && forall q: nat :: q < r ==> !StandsAt(a[lo..hi], name, q)
  {
    hide CString;
    var len := |name| + 1;
    var p := 0;
    ghost var table := a[lo..hi];
    while p + len <= hi - lo
      invariant forall q: nat :: q < p ==> !StandsAt(table, name, q)
      decreases hi - p
    {
      ArraySlice(a, lo, hi, p, len);
      if a[lo + p..lo + p + len] == CString(name) {
        assert StandsAt(table, name, p);
        return p;
      }
      p := p + 1;
    }
    return -1;
  }

  /** A call whose name is new and longer than all that is left in front of the strings, header included.
      The library's test for room is then about a negative number, in unsigned arithmetic, and passes. */
  ghost predicate NameStrays(table: seq<byte>, call: Token, totalsize: nat) {
    call.Property? && !Stands(table, call.name) && |table| + |call.name| + 1 > totalsize
  }

  /** The unsigned test for room, of a difference that may be negative. */
  lemma RoomTest(totalsize: nat, strings: nat, len: nat, top: nat)
    requires strings <= totalsize <= MAX_STRUCT && len <= MAX_STRUCT && top < 0x8000_0000
    ensures (totalsize - strings - len) % U32_SPAN < top <==> 0 <= totalsize - strings - len < top
  {
  }

  lemma TableView(fdt: Blob)
    requires fdt.size_dt_strings <= fdt.totalsize <= fdt.buf.Length
    ensures Table(fdt) == fdt.buf[fdt.totalsize - fdt.size_dt_strings..fdt.totalsize]
  {
  }

  /** `_fdt_find_add_string` of the writer: a negative offset from the end of the buffer, or 0 when the
      string is new and there is no room. */
  method FindAddString(fdt: Blob, name: seq<byte>, ghost items: seq<Item>, ghost calls: seq<Token>) returns (r: int)
    requires Begun(fdt, items, calls) && 0 !in name && |name| < MAX_STRUCT
    modifies fdt`size_dt_strings, fdt.buf
    ensures var unknown, n := !Stands(old(Table(fdt)), name), old(fdt.size_dt_strings) + |name| + 1;
            && r <= STRAY
            && (r == STRAY <==> unknown && n > fdt.totalsize)
            && (r == 0 <==> unknown && n <= fdt.totalsize < fdt.off_dt_struct + fdt.size_dt_struct + n)
            && (r < 0 && unknown ==> Sound(fdt) && Table(fdt) == CString(name) + old(Table(fdt)))
            && (r == 0 || (r < 0 && !unknown) ==>
                  fdt.size_dt_strings == old(fdt.size_dt_strings) && Table(fdt) == old(Table(fdt)) && fdt.Bytes() == old(fdt.Bytes()))
    ensures r <= 0 ==> Begun(fdt, items, calls) && Sound(fdt) == old(Sound(fdt))
    ensures r <= 0 && Sound(fdt) ==> fdt.Struct() == old(fdt.Struct()) && Reserved(fdt) == old(Reserved(fdt))
    ensures r < 0 ==>
              && -|Table(fdt)| <= r < 0
              && Terminated(Table(fdt), |Table(fdt)| + r) && StringAt(Table(fdt), |Table(fdt)| + r) == name
  {
    hide Writing, Table, Reserved, Stands, Terminated, StringAt, CString, Blob.Struct, Blob.Bytes;
    TableView(fdt);
    ghost var t := Table(fdt);
    var strtab := fdt.totalsize;
    var strtabsize: int := fdt.size_dt_strings;
    var p := FindString(fdt.buf, strtab - strtabsize, strtab, name);
    if p >= 0 {
      FoundIsString(t, name, p);
      r := p - strtabsize;
    } else {
      r := AddString(fdt, name, items, calls);
    }
  }

  /** `_fdt_find_add_string` for a string that is not there. */
  method AddString(fdt: Blob, name: seq<byte>, ghost items: seq<Item>, ghost calls: seq<Token>) returns (r: int)
    requires Begun(fdt, items, calls) && 0 !in name && |name| < MAX_STRUCT
    modifies fdt`size_dt_strings, fdt.buf
    ensures var n := old(fdt.size_dt_strings) + |name| + 1;
            r == if n > fdt.totalsize then STRAY
                 else if fdt.off_dt_struct + fdt.size_dt_struct + n > fdt.totalsize then 0
                 else -n
    ensures r == 0 ==>
              && fdt.size_dt_strings == old(fdt.size_dt_strings) && Table(fdt) == old(Table(fdt)) && fdt.Bytes() == old(fdt.Bytes())
              && Begun(fdt, items, calls) && (Sound(fdt) ==> fdt.Struct() == old(fdt.Struct()) && Reserved(fdt) == old(Reserved(fdt)))
    ensures r < 0 ==>
              && Writing(fdt, items, calls) && fdt.size_dt_strings == -r && Table(fdt) == CString(name) + old(Table(fdt))
              && fdt.Struct() == old(fdt.Struct()) && Reserved(fdt) == old(Reserved(fdt))
              && Terminated(Table(fdt), 0) && StringAt(Table(fdt), 0) == name
  {
    hide Writing, Table, Reserved, Terminated, StringAt, CString, Blob.Struct, Blob.Bytes;
    var strtabsize: int := fdt.size_dt_strings;
    var len := |name| + 1;
    var offset := -strtabsize - len;
    var structTop := fdt.off_dt_struct + fdt.size_dt_struct;
    RoomTest(fdt.totalsize, strtabsize, len, structTop);
    if (fdt.totalsize + offset) % U32_SPAN < structTop {
      return 0;
    }
    if fdt.totalsize + offset < 0 {
      return STRAY;
    }
    PushName(fdt, name, items, calls);
    return offset;
  }

  /** A new name, where there is room for it. */
  method PushName(fdt: Blob, name: seq<byte>, ghost items: seq<Item>, ghost calls: seq<Token>)
    requires Writing(fdt, items, calls) && 0 !in name
    requires fdt.off_dt_struct + fdt.size_dt_struct + fdt.size_dt_strings + |name| + 1 <= fdt.totalsize
    modifies fdt`size_dt_strings, fdt.buf
    ensures Writing(fdt, items, calls) && fdt.Struct() == old(fdt.Struct()) && Reserved(fdt) == old(Reserved(fdt))
    ensures fdt.size_dt_strings == old(fdt.size_dt_strings) + |name| + 1 && Table(fdt) == CString(name) + old(Table(fdt))
    ensures Terminated(Table(fdt), 0) && StringAt(Table(fdt), 0) == name
  {
    hide U32, Filled, RecordsAll, Terminated, StringAt, CString, Table, Reserved, Blob.Struct;
    ghost var t := Table(fdt);
    PushString(fdt, name);
    RecordsGrow(items, calls, t, CString(name));
    FirstString(t, name);
  }

  lemma FirstString(t: seq<byte>, name: seq<byte>)
    requires 0 !in name
    ensures Terminated(CString(name) + t, 0) && StringAt(CString(name) + t, 0) == name
  {
    assert (CString(name) + t)[0..0 + |name| + 1] == CString(name);
    FoundIsString(CString(name) + t, name, 0);
  }

  /** Puts a string in front of the strings block. */
  method PushString(fdt: Blob, name: seq<byte>)
    requires SwBounds(fdt)
    requires fdt.off_dt_struct + fdt.size_dt_struct + fdt.size_dt_strings + |name| + 1 <= fdt.totalsize
    modifies fdt`size_dt_strings, fdt.buf
    ensures SwBounds(fdt) && fdt.size_dt_strings == old(fdt.size_dt_strings) + |name| + 1
    ensures Table(fdt) == CString(name) + old(Table(fdt))
    ensures fdt.Struct() == old(fdt.Struct()) && Reserved(fdt) == old(Reserved(fdt))
  {
    ghost var b := fdt.buf[..];
    var p := fdt.totalsize - fdt.size_dt_strings - (|name| + 1);
    MemCpy(fdt.buf, p, CString(name));
    ghost var c := fdt.buf[..];
    KeptBelow(b, c, p, fdt.off_dt_struct, fdt.off_dt_struct + fdt.size_dt_struct);
    KeptBelow(b, c, p, 48, fdt.off_dt_struct);
    KeptAbove(b, c, p + |name| + 1, p + |name| + 1, fdt.totalsize);
    fdt.size_dt_strings := fdt.size_dt_strings + |name| + 1;
    assert Table(fdt) == fdt.buf[p..p + |name| + 1] + fdt.buf[p + |name| + 1..fdt.totalsize];
  }

  /** What `fdt_property` returns. */
  ghost function PropertyCode(fdt: Blob, name: seq<byte>, val: seq<byte>): int
    requires fdt.magic == FDT_SW_MAGIC ==> fdt.size_dt_strings <= fdt.totalsize <= fdt.buf.Length
    reads fdt, fdt.buf
  {
    if fdt.magic != FDT_SW_MAGIC then -FDT_ERR_BADMAGIC
    else
      var t, call, top := Table(fdt), Property(name, val), fdt.off_dt_struct + fdt.size_dt_struct;
      if NameStrays(t, call, fdt.totalsize) then STRAY
      else if !Stands(t, name) && top + |t| + |name| + 1 > fdt.totalsize then -FDT_ERR_NOSPACE
      else if fdt.size_dt_struct + CallSize(call) > (fdt.totalsize - fdt.off_dt_struct - |TableWith(t, call)|) % U32_SPAN then -FDT_ERR_NOSPACE
      else if top + 12 + |val| > fdt.buf.Length then STRAY
      else 0
  }

  /** On a sound blob the call succeeds exactly when property and name fit, and strays exactly when the
      name does. */
  lemma SoundPropertyCode(fdt: Blob, name: seq<byte>, val: seq<byte>)
    requires SwBounds(fdt) && fdt.magic == FDT_SW_MAGIC && |name| < MAX_STRUCT && |val| < MAX_STRUCT - 16
    ensures PropertyCode(fdt, name, val) ==
            if RoomFor(fdt, Property(name, val)) then 0
            else if NameStrays(Table(fdt), Property(name, val), fdt.totalsize) then STRAY else -FDT_ERR_NOSPACE
  {
    hide Stands, Table;
    AlignBound(|val|);
  }

  /** `fdt_property`. When the name is new and only the property does not fit, the name stays behind in
      the strings block. */
  method AddProperty(fdt: Blob, name: seq<byte>, val: seq<byte>, ghost items: seq<Item>, ghost calls: seq<Token>)
    returns (r: int, ghost items': seq<Item>)
    requires fdt.magic == FDT_SW_MAGIC ==> Begun(fdt, items, calls)
    requires 0 !in name && |name| < MAX_STRUCT && |val| < MAX_STRUCT - 16
    modifies fdt`size_dt_struct, fdt`size_dt_strings, fdt.buf
    ensures r == old(PropertyCode(fdt, name, val))
    ensures r < 0 && old(fdt.magic == FDT_SW_MAGIC) ==> Begun(fdt, items, calls) && fdt.size_dt_struct == old(fdt.size_dt_struct)
    ensures r == 0 ==>
              && Begun(fdt, items', calls + [Property(name, val)])
              && fdt.size_dt_struct == old(fdt.size_dt_struct) + CallSize(Property(name, val))
              && fdt.size_dt_strings == |TableWith(old(Table(fdt)), Property(name, val))|
    ensures r <= 0 && old(fdt.magic == FDT_SW_MAGIC && Sound(fdt)) ==>
              && SwBounds(fdt) && Reserved(fdt) == old(Reserved(fdt))
              && (r == 0 ==> Table(fdt) == TableWith(old(Table(fdt)), Property(name, val)))
              && (r < 0 ==> fdt.Struct() == old(fdt.Struct()))
  {
    hide U32, Align, Filled, RecordsAll, Sits, Table, Reserved, Terminated, StringAt, Stands, CString, Blob.Bytes, Blob.Struct;
    items' := items;
    if fdt.magic != FDT_SW_MAGIC {
      return -FDT_ERR_BADMAGIC, items;
    }
    var nameoff := FindAddString(fdt, name, items, calls);
    if nameoff == 0 {
      return -FDT_ERR_NOSPACE, items;
    } else if nameoff == STRAY {
      return STRAY, items;
    }
    r, items' := PutProperty(fdt, nameoff, name, val, items, calls);
  }

  /** `fdt_property` once the name is among the strings. */
  method PutProperty(fdt: Blob, nameoff: int, name: seq<byte>, val: seq<byte>, ghost items: seq<Item>, ghost calls: seq<Token>)
    returns (r: int, ghost items': seq<Item>)
    requires Begun(fdt, items, calls) && |val| < MAX_STRUCT - 16 && -|Table(fdt)| <= nameoff < 0
    requires Terminated(Table(fdt), |Table(fdt)| + nameoff) && StringAt(Table(fdt), |Table(fdt)| + nameoff) == name
    modifies fdt`size_dt_struct, fdt.buf
    ensures r == old(PutCode(fdt, 12 + Align(|val|), 12 + |val|))
    ensures r < 0 ==> Begun(fdt, items, calls) && fdt.size_dt_struct == old(fdt.size_dt_struct) && fdt.Bytes() == old(fdt.Bytes())
    ensures r == 0 ==>
              && Begun(fdt, items', calls + [Property(name, val)])
              && fdt.size_dt_struct == old(fdt.size_dt_struct) + 12 + Align(|val|)
              && PutAt(old(fdt.Bytes()), fdt.Bytes(), fdt.off_dt_struct + old(fdt.size_dt_struct), PropBytes(nameoff + U32_SPAN, val))
    ensures old(Sound(fdt)) ==>
              && r <= 0 && SwBounds(fdt) && Table(fdt) == old(Table(fdt)) && Reserved(fdt) == old(Reserved(fdt))
              && (r < 0 ==> fdt.Struct() == old(fdt.Struct()))
  {
    hide U32, Align, Filled, RecordsAll, Sits, Table, Reserved, Terminated, StringAt, PropBytes, Blob.Bytes;
    items' := items;
    AlignBound(|val|);
    ghost var sound, prop := Sound(fdt), fdt.size_dt_struct;
    ghost var s := if sound then fdt.Struct() else [];
    r := Put(fdt, 12 + Align(|val|), PropBytes(nameoff + U32_SPAN, val));
    if sound && r == 0 {
      items' := PropertyRecorded(fdt, prop, nameoff + U32_SPAN, name, val, items, calls, s);
    }
  }

  /** Tag, length, name offset and value. */
  function PropBytes(nameoff: nat, value: seq<byte>): (s: seq<byte>)
    requires nameoff < U32_SPAN && |value| < U32_SPAN
    ensures |s| == 12 + |value|
  {
    Put32(FDT_PROP) + Put32(|value|) + Put32(nameoff) + value
  }

  /** A property that has been put at the end of the structure block. */
  lemma PropertyRecorded(fdt: Blob, prop: nat, word: nat, name: seq<byte>, val: seq<byte>,
                         items: seq<Item>, calls: seq<Token>, s: seq<byte>)
    returns (items': seq<Item>)
    requires SwBounds(fdt) && fdt.magic == FDT_SW_MAGIC && |val| <= MAX_STRUCT
    requires Filled(s, items) && RecordsAll(items, calls, Table(fdt))
    requires |s| == prop && fdt.size_dt_struct == prop + 12 + Align(|val|) && fdt.Struct()[..prop] == s
    requires U32_SPAN - |Table(fdt)| <= word < U32_SPAN
    requires fdt.Struct()[prop..prop + 12 + |val|] == PropBytes(word, val)
    requires var o := word - (U32_SPAN - |Table(fdt)|); Terminated(Table(fdt), o) && StringAt(Table(fdt), o) == name
    ensures Writing(fdt, items', calls + [Property(name, val)])
  {
    hide U32, Align, Filled, RecordsAll, Sits, Table, Terminated, StringAt;
    AlignBound(|val|);
    FreshProp(fdt.Struct(), prop, word, val);
    var it := Prop(word, val, fdt.Struct()[prop + 12 + |val|..prop + 12 + Align(|val|)]);
    FilledAppend(s, fdt.Struct(), items, it);
    RecordsAppend(items, calls, Table(fdt), it, Property(name, val));
    items' := items + [it];
  }

  // ----- finishing -----

  lemma FilledEnds(s: seq<byte>, t: seq<byte>, items: seq<Item>)
    requires Filled(s, items) && |t| == |s| + 4 <= MAX_STRUCT && t[..|s|] == s && U32(t, |s|) == FDT_END
    ensures Layout(t, items)
  {
    hide U32, Sits, Item.Size;
    forall i | 0 <= i < |items| ensures ItemSits(t, items, i) {
      assert ItemSits(s, items, i);
      FilledOff(s, items, i + 1, |items|);
      var a, n := Off(items, i), items[i].Size();
      assert a + n == Off(items, i + 1);
      SliceOfSlice(t, 0, |s|, a, a + n);
      SitsMoved(s, a, t, a, items[i]);
    }
  }

  /** A property with its name offset moved up by `n`, in 32-bit arithmetic. */
  function Relocate(it: Item, n: nat): Item {
    if it.Prop? then it.(nameoff := (it.nameoff + n) % U32_SPAN) else it
  }

  /** The first `k` items relocated. */
  function Fixed(items: seq<Item>, k: nat, n: nat): (r: seq<Item>)
    ensures |r| == |items|
  {
    seq(|items|, i requires 0 <= i < |items| => if i < k then Relocate(items[i], n) else items[i])
  }

  lemma {:induction false} OffFixed(items: seq<Item>, k: nat, n: nat, i: nat)
    requires i <= |items|
    ensures Off(Fixed(items, k, n), i) == Off(items, i)
  {
    if i > 0 {
      OffFixed(items, k, n, i - 1);
    }
  }

  lemma FixedStep(items: seq<Item>, k: nat, n: nat)
    requires k < |items|
    ensures Fixed(items, k, n)[k] == items[k]
    ensures Fixed(items, k + 1, n) == Fixed(items, k, n)[k := Relocate(items[k], n)]
  {
  }

  /** Rewriting the name offset of one property in place. */
  lemma PatchNameoff(s: seq<byte>, t: seq<byte>, items: seq<Item>, k: nat, v: nat)
    requires Layout(s, items) && k < |items| && items[k].Prop? && v < U32_SPAN && |t| == |s|
    requires Off(items, k) + 12 <= |s|
    requires var o := Off(items, k); t[..o + 8] == s[..o + 8] && U32(t, o + 8) == v && t[o + 12..] == s[o + 12..]
    ensures Layout(t, items[k := items[k].(nameoff := v)])
  {
    hide U32, Sits, Layout, Off, Item.Size, Replace;
    var o, it := Off(items, k), items[k].(nameoff := v);
    var n := it.Size();
    PropStands(s, items, k, it);
    PatchedProp(s, t, o, items[k], v);
    KeptBelow(s, t, o + 8, 0, o);
    KeptAbove(s, t, o + 12, o + n, |s|);
    OneReplaced(items, k, it);
    SingleLayout(s, t, items, k, k + 1, it);
  }

  lemma PropStands(s: seq<byte>, items: seq<Item>, k: nat, it: Item)
    requires Layout(s, items) && k < |items| && items[k].Prop? && it.Prop? && it.value == items[k].value && it.pad == items[k].pad
    ensures Sits(s, Off(items, k), items[k]) && 12 <= it.Size() && Off(items, k + 1) == Off(items, k) + it.Size() <= |s| <= MAX_STRUCT
  {
    assert ItemSits(s, items, k);
  }

  lemma OneReplaced(items: seq<Item>, k: nat, it: Item)
    requires k < |items|
    ensures Replace(items, k, k + 1, [it]) == items[k := it]
  {
  }

  lemma PatchedProp(s: seq<byte>, t: seq<byte>, o: nat, it: Item, v: nat)
    requires Sits(s, o, it) && it.Prop? && v < U32_SPAN && |t| == |s|
    requires t[..o + 8] == s[..o + 8] && U32(t, o + 8) == v && t[o + 12..] == s[o + 12..]
    ensures Sits(t, o, it.(nameoff := v))
  {
    var n := it.Size();
    KeptBelow(s, t, o + 8, o, o + 4);
    U32Within(s, t, o, o);
    KeptBelow(s, t, o + 8, o + 4, o + 8);
    U32Within(s, t, o + 4, o + 4);
    hide U32;
    KeptAbove(s, t, o + 12, o + 12, o + 12 + |it.value|);
    KeptAbove(s, t, o + 12, o + 12 + |it.value|, o + n);
  }

  /** With all offsets relocated, what was recorded is what the block means. */
  lemma RecordsMean(items: seq<Item>, calls: seq<Token>, table: seq<byte>)
    requires RecordsAll(items, calls, table) && |table| < U32_SPAN
    ensures var r := Fixed(items, |items|, |table|); NamesOk(r, table) && Spells(r, calls, table)
  {
    hide Terminated, StringAt, Records, TokenOf;
    var r := Fixed(items, |items|, |table|);
    forall i | 0 <= i < |r|
      ensures TokenOf(r[i], table) == [calls[i]] && (r[i].Prop? ==> Terminated(table, r[i].nameoff))
    {
      assert Records(items[i], calls[i], table);
      RecordMeans(items[i], calls[i], table);
    }
  }

  lemma RecordMeans(it: Item, call: Token, table: seq<byte>)
    requires Records(it, call, table) && |table| < U32_SPAN
    ensures var r := Relocate(it, |table|); TokenOf(r, table) == [call] && (r.Prop? ==> Terminated(table, r.nameoff))
  {
    hide Terminated, StringAt;
    if it.Prop? {
      RelocatedOffset(it.nameoff, |table|);
    }
  }

  lemma RelocatedOffset(v: nat, n: nat)
    requires n < U32_SPAN && U32_SPAN - n <= v < U32_SPAN
    ensures (v + n) % U32_SPAN == v - (U32_SPAN - n)
  {
  }

  /** The blob is complete: reservation map, structure and strings stand in order, the strings last. */
  ghost predicate Complete(fdt: Blob)
    reads fdt
  {
    && fdt.magic == FDT_MAGIC && fdt.version == FDT_LAST_SUPPORTED_VERSION && fdt.last_comp_version == FDT_FIRST_SUPPORTED_VERSION
    && fdt.off_mem_rsvmap == 48 <= fdt.off_dt_struct
    && fdt.off_dt_strings == fdt.off_dt_struct + fdt.size_dt_struct
    && fdt.totalsize == fdt.off_dt_strings + fdt.size_dt_strings <= fdt.buf.Length <= MAX_STRUCT
  }

  /** What `fdt_finish` returns. */
  function FinishCode(fdt: Blob): int
    reads fdt
  {
    if fdt.magic != FDT_SW_MAGIC then -FDT_ERR_BADMAGIC
    else if fdt.size_dt_struct + 4 > SpaceLeft(fdt) then -FDT_ERR_NOSPACE
    else if Sound(fdt) then 0
    else STRAY
  }

  /** `fdt_finish`: the finished blob holds one item for each call made, in order, that says what the call
      said, and nothing else. On an unsound blob, the end tag or the strings go behind the buffer. */
  method Finish(fdt: Blob, ghost items: seq<Item>, ghost calls: seq<Token>) returns (r: int, ghost items': seq<Item>)
    requires fdt.magic == FDT_SW_MAGIC ==> Begun(fdt, items, calls)
    modifies fdt, fdt.buf
    ensures r == old(FinishCode(fdt))
    ensures r < 0 && old(fdt.magic == FDT_SW_MAGIC) ==> Begun(fdt, items, calls) && Sound(fdt) == old(Sound(fdt))
    ensures old(fdt.magic == FDT_SW_MAGIC && Sound(fdt)) ==>
              r == if old(fdt.off_dt_struct + fdt.size_dt_struct + 4 + fdt.size_dt_strings <= fdt.totalsize) then 0 else -FDT_ERR_NOSPACE
    ensures r == 0 ==> Complete(fdt) && HoldsNamed(fdt, items') && Spells(items', calls, fdt.Strings())
    ensures r == 0 ==> fdt.off_dt_struct == old(fdt.off_dt_struct) && Reserved(fdt) == old(Reserved(fdt))
  {
    hide Layout, RecordsAll, Filled, NamesOk, Spells, Fixed, U32, Table, Reserved, Blob.Struct, Blob.Strings;
    items' := Fixed(items, |items|, fdt.size_dt_strings);
    if fdt.magic != FDT_SW_MAGIC {
      return -FDT_ERR_BADMAGIC, items';
    }
    r := AddEnd(fdt, items, calls);
    if r != 0 {
      return r, items';
    }
    ghost var table := Table(fdt);
    var inside := MoveStrings(fdt, items);
    if !inside {
      return STRAY, items';
    }
    var nextoffset := CorrectOffsets(fdt, items);
    if nextoffset < 0 {
      return nextoffset, items';
    }
    RecordsMean(items, calls, table);
    Seal(fdt);
    return 0, items';
  }

  /** The header of a finished blob. */
  method Seal(fdt: Blob)
    requires SwBounds(fdt) && fdt.InBuffer() && fdt.off_dt_strings == fdt.off_dt_struct + fdt.size_dt_struct
    modifies fdt`totalsize, fdt`magic
    ensures Complete(fdt) && fdt.InBuffer()
    ensures fdt.Struct() == old(fdt.Struct()) && fdt.Strings() == old(fdt.Strings()) && Reserved(fdt) == old(Reserved(fdt))
  {
    fdt.totalsize := fdt.off_dt_strings + fdt.size_dt_strings;
    fdt.magic := FDT_MAGIC;
  }

  /** The terminator of `fdt_finish`. */
  method AddEnd(fdt: Blob, ghost items: seq<Item>, ghost calls: seq<Token>) returns (r: int)
    requires Begun(fdt, items, calls)
    modifies fdt`size_dt_struct, fdt.buf
    ensures r == old(PutCode(fdt, 4, 4))
    ensures r < 0 ==> Begun(fdt, items, calls)
    ensures r == 0 ==> fdt.size_dt_struct == old(fdt.size_dt_struct) + 4
    ensures old(Sound(fdt)) ==>
              && r == (if old(fdt.off_dt_struct + fdt.size_dt_struct + 4 + fdt.size_dt_strings <= fdt.totalsize) then 0 else -FDT_ERR_NOSPACE)
              && SwBounds(fdt) && Reserved(fdt) == old(Reserved(fdt))
              && (r == 0 ==> Layout(fdt.Struct(), items) && RecordsAll(items, calls, Table(fdt)))
  {
    hide U32, Filled, RecordsAll, Table, Reserved, Layout, Blob.Bytes;
    ghost var sound, end := Sound(fdt), fdt.size_dt_struct;
    ghost var s := if sound then fdt.Struct() else [];
    r := Put(fdt, 4, Put32(FDT_END));
    if sound && r == 0 {
      U32Within(fdt.Struct(), Put32(FDT_END), end, 0);
      FilledEnds(s, fdt.Struct(), items);
    }
  }

  /** The move of the strings block down to the end of the structure block, if they go inside the
      buffer. */
  method MoveStrings(fdt: Blob, ghost items: seq<Item>) returns (inside: bool)
    requires fdt.size_dt_strings <= fdt.totalsize <= fdt.buf.Length
    modifies fdt`off_dt_strings, fdt.buf
    ensures inside <==> fdt.off_dt_struct + fdt.size_dt_struct + fdt.size_dt_strings <= fdt.buf.Length
    ensures old(SwBounds(fdt) && Layout(fdt.Struct(), items)) ==>
              && inside && SwBounds(fdt) && fdt.InBuffer() && Layout(fdt.Struct(), items)
              && fdt.off_dt_strings == fdt.off_dt_struct + fdt.size_dt_struct
              && fdt.Strings() == old(Table(fdt)) && Reserved(fdt) == old(Reserved(fdt))
  {
    hide Layout;
    ghost var b := fdt.buf[..];
    var oldstroffset := fdt.totalsize - fdt.size_dt_strings;
    var newstroffset := fdt.off_dt_struct + fdt.size_dt_struct;
    inside := newstroffset + fdt.size_dt_strings <= fdt.buf.Length;
    if !inside {
      return;
    }
    MemMove(fdt.buf, newstroffset, oldstroffset, fdt.size_dt_strings);
    fdt.off_dt_strings := newstroffset;
    ghost var c := fdt.buf[..];
    if SwBounds(fdt) {
      KeptBelow(b, c, newstroffset, fdt.off_dt_struct, newstroffset);
      KeptBelow(b, c, newstroffset, 48, fdt.off_dt_struct);
    }
  }

  /** On the blob that `fdt_create` makes of 40 to 47 bytes, the test for room says wrongly that there is
      some, and tags go behind the buffer. */
  lemma SmallBufferStrays(fdt: Blob, len: nat, n: nat)
    requires fdt.magic == FDT_SW_MAGIC && HEADER_SIZE <= fdt.totalsize == fdt.buf.Length < 48 == fdt.off_dt_struct
    requires fdt.size_dt_struct == fdt.size_dt_strings == 0 && 0 < n <= len <= MAX_STRUCT
    ensures !Sound(fdt) && !SaysRightly(fdt, len) && PutCode(fdt, len, n) == STRAY && FinishCode(fdt) == STRAY
  {
  }

  /** The walk of `fdt_finish` over the properties. */
  method CorrectOffsets(fdt: Blob, ghost items: seq<Item>) returns (nextoffset: int)
    requires SwBounds(fdt) && fdt.InBuffer() && Layout(fdt.Struct(), items)
    requires fdt.off_dt_strings == fdt.off_dt_struct + fdt.size_dt_struct
    modifies fdt.buf
    ensures nextoffset >= 0 && Layout(fdt.Struct(), Fixed(items, |items|, fdt.size_dt_strings))
    ensures fdt.Strings() == old(fdt.Strings()) && Reserved(fdt) == old(Reserved(fdt))
  {
    hide Layout, Off, Fixed, Relocate, Blob.Struct, Blob.Strings, Blob.Word, Reserved, U32;
    var offset := 0;
    ghost var k := 0;
    ghost var n := fdt.size_dt_strings;
    FixedNone(items, n);
    OffZero(Fixed(items, 0, n));
    var tag: nat;
    tag, nextoffset := StepTag(fdt, offset, Fixed(items, 0, n), 0);
    while tag != FDT_END
      invariant k <= |items| && offset == Off(Fixed(items, k, n), k)
      invariant Layout(fdt.Struct(), Fixed(items, k, n))
      invariant k < |items| ==> tag == Fixed(items, k, n)[k].Tag() && nextoffset == Off(Fixed(items, k, n), k + 1)
      invariant k == |items| ==> tag == FDT_END
      invariant nextoffset >= 0
      invariant fdt.Strings() == old(fdt.Strings()) && Reserved(fdt) == old(Reserved(fdt))
      decreases |items| - k
    {
      FixedStep(items, k, n);
      OffFixed(items, k, n, k + 1);
      OffFixed(items, k + 1, n, k + 1);
      if tag == FDT_PROP {
        PropWords(fdt.Struct(), Fixed(items, k, n), k);
        AddToNameoff(fdt, offset, Fixed(items, k, n), k);
        RelocateProp(items[k], n);
      } else {
        RelocateOther(items[k], n);
        assert Fixed(items, k + 1, n) == Fixed(items, k, n);
      }
      offset := nextoffset;
      k := k + 1;
      tag, nextoffset := StepTag(fdt, offset, Fixed(items, k, n), k);
    }
  }

  lemma FixedNone(items: seq<Item>, n: nat)
    ensures Fixed(items, 0, n) == items
  {
  }

  lemma RelocateProp(it: Item, n: nat)
    requires it.Prop?
    ensures Relocate(it, n) == it.(nameoff := (it.nameoff + n) % U32_SPAN)
  {
  }

  lemma RelocateOther(it: Item, n: nat)
    requires !it.Prop?
    ensures Relocate(it, n) == it
  {
  }

  /** Adds the size of the strings block to the name offset of the property at `offset`. */
  method AddToNameoff(fdt: Blob, offset: nat, ghost items: seq<Item>, ghost k: nat)
    requires SwBounds(fdt) && fdt.InBuffer() && Layout(fdt.Struct(), items)
    requires fdt.off_dt_strings == fdt.off_dt_struct + fdt.size_dt_struct
    requires k < |items| && items[k].Prop? && offset == Off(items, k) && offset + 12 <= fdt.size_dt_struct
    requires U32(fdt.Struct(), offset + 8) == items[k].nameoff
    modifies fdt.buf
    ensures Layout(fdt.Struct(), items[k := items[k].(nameoff := (items[k].nameoff + fdt.size_dt_strings) % U32_SPAN)])
    ensures fdt.Strings() == old(fdt.Strings()) && Reserved(fdt) == old(Reserved(fdt))
  {
    hide Layout, U32, Sits, Off, Blob.Struct, Blob.Strings, Blob.Bytes;
    BlobViews(fdt);
    ghost var b, s := fdt.Bytes(), fdt.Struct();
    var nameoff := (fdt.Word(offset + 8) + fdt.size_dt_strings) % U32_SPAN;
    var lo, p := fdt.off_dt_struct, fdt.off_dt_struct + offset + 8;
    PutBytes(fdt, p, Put32(nameoff));
    BlobViews(fdt);
    ghost var c, t := fdt.Bytes(), fdt.Struct();
    KeptBelow(b, c, p, lo, p);
    KeptBelow(b, c, p, 48, lo);
    KeptAbove(b, c, p + 4, p + 4, lo + |s|);
    KeptAbove(b, c, p + 4, fdt.off_dt_strings, fdt.off_dt_strings + fdt.size_dt_strings);
    WordReplaced(b, c, lo, |s|, offset + 8, nameoff);
    PatchNameoff(s, t, items, k, nameoff);
  }

  lemma WordReplaced(b: seq<byte>, c: seq<byte>, lo: nat, n: nat, o: nat, v: nat)
    requires o + 4 <= n && lo + n <= |b| == |c| && v < U32_SPAN
    requires c[lo..lo + o] == b[lo..lo + o] && c[lo + o..lo + o + 4] == Put32(v) && c[lo + o + 4..lo + n] == b[lo + o + 4..lo + n]
    ensures c[lo..lo + n][..o] == b[lo..lo + n][..o] && U32(c[lo..lo + n], o) == v
    ensures c[lo..lo + n][o + 4..] == b[lo..lo + n][o + 4..]
  {
    StructParts(b, lo, n, o);
    StructParts(c, lo, n, o);
    U32Within(c[lo..lo + n], Put32(v), o, 0);
  }

  lemma StructParts(b: seq<byte>, lo: nat, n: nat, o: nat)
    requires o + 4 <= n && lo + n <= |b|
    ensures b[lo..lo + n][..o] == b[lo..lo + o]
    ensures b[lo..lo + n][o..o + 4] == b[lo + o..lo + o + 4]
    ensures b[lo..lo + n][o + 4..] == b[lo + o + 4..lo + n]
  {
    SliceOfSlice(b, lo, lo + n, 0, o);
    SliceOfSlice(b, lo, lo + n, o, o + 4);
    SliceOfSlice(b, lo, lo + n, o + 4, n);
  }
}
