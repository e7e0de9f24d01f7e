/** Whole runs of the sequential writer, from `fdt_create` to `fdt_finish`, as a reader sees them. */
module FdtSerialize {
  import opened Wrappers
  import opened FdtFormat
  import opened FdtBlob
  import opened FdtStrings
  import opened FdtRead
  import opened FdtWrite
  import opened FdtEdit
  import opened FdtPack

  /** A memory reservation. */
  datatype Reservation = Reservation(addr: nat, size: nat)

  /** A reservation of 64-bit numbers. */
  predicate Writable(e: Reservation) {
    e.addr < U64_SPAN && e.size < U64_SPAN
  }

  predicate AllWritable(rsv: seq<Reservation>) {
    forall i :: 0 <= i < |rsv| ==> Writable(rsv[i])
  }

  /** Reservations that do not look like the end of the map. */
  predicate AllReservable(rsv: seq<Reservation>) {
    forall i :: 0 <= i < |rsv| ==> rsv[i].size > 0
  }

  /** How many of them a reader of the map sees: those before the first of size zero, which the writer
      takes like any other. */
  function UsedEntries(rsv: seq<Reservation>): (n: nat)
    ensures n <= |rsv| && (forall i :: 0 <= i < n ==> rsv[i].size > 0) && (n < |rsv| ==> rsv[n].size == 0)
  {
    if rsv == [] || rsv[0].size == 0 then 0 else 1 + UsedEntries(rsv[1..])
  }

  /** C strings, and sizes an `int` can hold. */
  predicate Callable(call: Token) {
    match call
    case BeginNode(name) => 0 !in name && |name| < MAX_STRUCT - 8
    case Property(name, value) => 0 !in name && |name| < MAX_STRUCT && |value| < MAX_STRUCT - 16
    case EndOfNode => true
  }

  function EntryBytes(e: Reservation): (s: seq<byte>)
    requires Writable(e)
    ensures |s| == 16
  {
    Put64(e.addr) + Put64(e.size)
  }

  function MapBytes(rsv: seq<Reservation>): (s: seq<byte>)
    requires AllWritable(rsv)
    ensures |s| == 16 * |rsv|
  {
    if rsv == [] then [] else MapBytes(rsv[..|rsv| - 1]) + EntryBytes(rsv[|rsv| - 1])
  }

  /** A blob with these entries in its reservation map, and nothing else. There may be no room for even
      an empty map. */
  ghost predicate Entries(fdt: Blob, rsv: seq<Reservation>)
    requires AllWritable(rsv)
    reads fdt, fdt.buf
  {
    && fdt.totalsize == fdt.buf.Length && fdt.magic == FDT_SW_MAGIC
    && fdt.size_dt_strings == 0 && fdt.size_dt_struct == 0 && fdt.off_dt_struct == 48 + 16 * |rsv|
    && (if fdt.totalsize < fdt.off_dt_struct then rsv == [] else Writing(fdt, [], []) && Reserved(fdt) == MapBytes(rsv))
  }

  /** One `fdt_add_reservemap_entry`. */
  method AddEntry(fdt: Blob, ghost rsv: seq<Reservation>, e: Reservation) returns (r: int)
    requires AllWritable(rsv) && Writable(e) && Entries(fdt, rsv)
    modifies fdt`off_dt_struct, fdt.buf
    ensures r == if 48 + 16 * (|rsv| + 1) <= fdt.buf.Length then 0 else -FDT_ERR_NOSPACE
    ensures r == 0 ==> AllWritable(rsv + [e]) && Entries(fdt, rsv + [e])
  {
    hide Put64, Writing, Blob.Bytes;
    ghost var more := rsv + [e];
    assert more[..|more| - 1] == rsv && more[|more| - 1] == e;
    r := AddReserveEntry(fdt, e.addr, e.size);
  }

  /** `fdt_create`, one `fdt_add_reservemap_entry` each, and `fdt_finish_reservemap`. */
  method Begin(fdt: Blob, rsv: seq<Reservation>) returns (r: int)
    requires fdt.buf.Length <= MAX_STRUCT && AllWritable(rsv)
    modifies fdt, fdt.buf
    ensures r == if 48 + 16 * (|rsv| + 1) <= fdt.buf.Length then 0 else -FDT_ERR_NOSPACE
    ensures r == 0 ==>
              && Writing(fdt, [], []) && fdt.size_dt_struct == 0 && Table(fdt) == []
              && fdt.totalsize == fdt.buf.Length && fdt.off_dt_struct == 48 + 16 * (|rsv| + 1)
              && Reserved(fdt) == MapBytes(rsv) + EntryBytes(Reservation(0, 0))
  {
    hide Put64, Writing, Blob.Bytes, EntryBytes;
    r := Create(fdt, fdt.buf.Length);
    if r != 0 {
      return;
    }
    assert rsv[..0] == [] && MapBytes([]) == [];
    var i := 0;
    while i < |rsv|
      invariant i <= |rsv| && r == 0 && Entries(fdt, rsv[..i])
    {
      r := AddEntry(fdt, rsv[..i], rsv[i]);
      if r != 0 {
        return;
      }
      assert rsv[..i + 1] == rsv[..i] + [rsv[i]];
      i := i + 1;
    }
    assert rsv[..|rsv|] == rsv;
    ghost var all := rsv + [Reservation(0, 0)];
    assert all[..|all| - 1] == rsv && all[|all| - 1] == Reservation(0, 0);
    r := AddEntry(fdt, rsv, Reservation(0, 0));
  }

  // ----- calls -----

  /** What the calls add to the structure block, and the strings block they leave. */
  function StructUsed(calls: seq<Token>): nat {
    if calls == [] then 0 else StructUsed(calls[..|calls| - 1]) + CallSize(calls[|calls| - 1])
  }

  ghost function TableOf(calls: seq<Token>): seq<byte> {
    if calls == [] then [] else TableWith(TableOf(calls[..|calls| - 1]), calls[|calls| - 1])
  }

  ghost function Used(calls: seq<Token>): nat {
    StructUsed(calls) + |TableOf(calls)|
  }

  lemma {:induction false} UsedGrows(calls: seq<Token>, i: nat, j: nat)
    requires i <= j <= |calls|
    ensures Used(calls[..i]) <= Used(calls[..j])
    decreases j
  {
    hide CallSize, TableWith;
    if i < j {
      UsedGrows(calls, i, j - 1);
      UsedMore(calls[..j - 1], calls[j - 1]);
      assert calls[..j] == calls[..j - 1] + [calls[j - 1]];
    }
  }

  lemma UsedMore(calls: seq<Token>, call: Token)
    ensures var c := calls + [call];
            StructUsed(c) == StructUsed(calls) + CallSize(call) && TableOf(c) == TableWith(TableOf(calls), call)
    ensures Used(calls) <= Used(calls + [call])
  {
    hide CallSize, TableWith;
    var c := calls + [call];
    assert c[..|c| - 1] == calls && c[|c| - 1] == call;
  }

  /** Every name that has been used stands in the strings block. */
  lemma {:induction false} NamesStand(calls: seq<Token>, i: nat)
    requires i < |calls| && calls[i].Property?
    ensures Stands(TableOf(calls), calls[i].name)
    decreases |calls|
  {
    hide Stands, CString;
    var n := |calls| - 1;
    var t := TableOf(calls[..n]);
    if i < n {
      NamesStand(calls[..n], i);
      if calls[n].Property? {
        StandsBehind(t, CString(calls[n].name), calls[i].name);
      }
    } else {
      StandsInFront(t, calls[n].name);
    }
  }

  /** A property whose name has been used before adds nothing to the strings, whatever came in between. */
  lemma SecondNameFree(calls: seq<Token>, i: nat, value: seq<byte>)
    requires i < |calls| && calls[i].Property?
    ensures TableOf(calls + [Property(calls[i].name, value)]) == TableOf(calls)
    ensures Used(calls + [Property(calls[i].name, value)]) == Used(calls) + 12 + Align(|value|)
  {
    hide Stands, StructUsed, TableOf;
    NamesStand(calls, i);
    UsedMore(calls, Property(calls[i].name, value));
  }

  /** A blob to which exactly these calls have been made. */
  ghost predicate Written(fdt: Blob, items: seq<Item>, calls: seq<Token>)
    reads fdt, fdt.buf
  {
    Writing(fdt, items, calls) && fdt.size_dt_struct == StructUsed(calls) && Table(fdt) == TableOf(calls)
  }

  /** One call of the writer. */
  method Write(fdt: Blob, call: Token, ghost items: seq<Item>, ghost calls: seq<Token>) returns (r: int, ghost items': seq<Item>)
    requires Written(fdt, items, calls) && Callable(call)
    modifies fdt`size_dt_struct, fdt`size_dt_strings, fdt.buf
    ensures r == if fdt.off_dt_struct + Used(calls + [call]) <= fdt.totalsize then 0
                 else if NameStrays(TableOf(calls), call, fdt.totalsize) then STRAY
                 else -FDT_ERR_NOSPACE
    ensures r == 0 ==> Written(fdt, items', calls + [call])
    ensures r < 0 ==> Writing(fdt, items, calls)
    ensures r <= 0 ==> Reserved(fdt) == old(Reserved(fdt))
  {
    hide CallSize, TableWith, Filled, RecordsAll, StructUsed, TableOf, Table, Reserved, PropertyCode, PutCode, Stands;
    UsedMore(calls, call);
    match call
    case BeginNode(name) =>
      NameUnused(TableOf(calls), call);
      r, items' := AddBeginNode(fdt, name, items, calls);
    case Property(name, value) =>
      SoundPropertyCode(fdt, name, value);
      r, items' := AddProperty(fdt, name, value, items, calls);
    case EndOfNode =>
      NameUnused(TableOf(calls), call);
      r, items' := AddEndNode(fdt, items, calls);
  }

  /** There is room for the first `n` calls, and the next one has a new name that is longer than all that
      is left in front of the strings, of `totalsize` bytes. */
  ghost predicate Strays(base: nat, calls: seq<Token>, n: nat, totalsize: nat) {
    n < |calls| && base + Used(calls[..n]) <= totalsize && NameStrays(TableOf(calls[..n]), calls[n], totalsize)
  }

  /** It is then the first call for which there is no room. */
  lemma StraysFirst(base: nat, calls: seq<Token>, n: nat, m: nat, totalsize: nat)
    requires Strays(base, calls, m, totalsize)
    ensures totalsize < base + Used(calls[..m + 1]) <= base + Used(calls)
    ensures n < |calls| && base + Used(calls[..n]) <= totalsize < base + Used(calls[..n + 1]) ==> n == m
  {
    hide NameStrays, Used, StructUsed, TableOf;
    assert calls[..m + 1] == calls[..m] + [calls[m]] && calls[..|calls|] == calls;
    StraysUsed(calls[..m], calls[m], totalsize);
    UsedGrows(calls, m + 1, |calls|);
    if n < |calls| {
      if n < m {
        UsedGrows(calls, n + 1, m);
      } else if m < n {
        UsedGrows(calls, m + 1, n);
      }
    }
  }

  lemma StraysUsed(calls: seq<Token>, call: Token, totalsize: nat)
    requires NameStrays(TableOf(calls), call, totalsize)
    ensures Used(calls + [call]) > totalsize
  {
    hide StructUsed, CallSize, Stands;
    UsedMore(calls, call);
  }

  /** No call strays when all names together fit in the buffer, each counted once. */
  lemma NamesFitNoneStrays(base: nat, calls: seq<Token>, n: nat, totalsize: nat)
    requires |TableOf(calls)| <= totalsize
    ensures !Strays(base, calls, n, totalsize)
  {
    hide TableOf, CallSize, StructUsed, Stands;
    if n < |calls| {
      assert calls[..n + 1] == calls[..n] + [calls[n]] && calls[..|calls|] == calls;
      UsedMore(calls[..n], calls[n]);
      TableGrows(calls, n + 1, |calls|);
    }
  }

  lemma {:induction false} TableGrows(calls: seq<Token>, i: nat, j: nat)
    requires i <= j <= |calls|
    ensures |TableOf(calls[..i])| <= |TableOf(calls[..j])|
    decreases j
  {
    hide CallSize, TableWith;
    if i < j {
      TableGrows(calls, i, j - 1);
      UsedMore(calls[..j - 1], calls[j - 1]);
      assert calls[..j] == calls[..j - 1] + [calls[j - 1]];
    }
  }

  /** A first name as long as the buffer strays. */
  lemma LongNameStrays(base: nat, name: seq<byte>, value: seq<byte>, totalsize: nat)
    requires base <= totalsize <= |name|
    ensures Strays(base, [Property(name, value)], 0, totalsize)
  {
    assert [Property(name, value)][..0] == [];
  }

  /** Any sequence of calls, up to the first that fails: those before it are recorded, and it is the
      first for which there is no room. */
  method WriteAll(fdt: Blob, calls: seq<Token>) returns (r: int, n: nat, ghost items: seq<Item>)
    requires Written(fdt, [], []) && forall c :: c in calls ==> Callable(c)
    modifies fdt`size_dt_struct, fdt`size_dt_strings, fdt.buf
    ensures n <= |calls| && (r == 0 <==> n == |calls|)
    ensures r == if fdt.off_dt_struct + Used(calls) <= fdt.totalsize then 0
                 else if Strays(fdt.off_dt_struct, calls, n, fdt.totalsize) then STRAY
                 else -FDT_ERR_NOSPACE
    ensures r == 0 ==> Written(fdt, items, calls)
    ensures r != 0 ==>
              n < |calls| && fdt.off_dt_struct + Used(calls[..n]) <= fdt.totalsize < fdt.off_dt_struct + Used(calls[..n + 1])
    ensures r < 0 ==> Writing(fdt, items, calls[..n])
    ensures fdt.off_dt_struct <= fdt.buf.Length
    ensures r <= 0 ==> Reserved(fdt) == old(Reserved(fdt))
  {
    hide Writing, Reserved, Table, Used, StructUsed, TableOf, NameStrays;
    r, items, n := 0, [], 0;
    WrittenFits(fdt, [], []);
    while n < |calls|
      invariant n <= |calls| && r == 0 && Written(fdt, items, calls[..n])
      invariant fdt.off_dt_struct <= fdt.buf.Length && Reserved(fdt) == old(Reserved(fdt))
    {
      assert calls[n] in calls && calls[..n + 1] == calls[..n] + [calls[n]];
      WrittenFits(fdt, items, calls[..n]);
      ghost var more: seq<Item>;
      r, more := Write(fdt, calls[n], items, calls[..n]);
      if r != 0 {
        UsedGrows(calls, n + 1, |calls|);
        assert calls[..|calls|] == calls;
        return;
      }
      items := more;
      n := n + 1;
    }
    assert calls[..|calls|] == calls;
    WrittenFits(fdt, items, calls);
  }

  lemma WrittenFits(fdt: Blob, items: seq<Item>, calls: seq<Token>)
    requires Written(fdt, items, calls)
    ensures 48 <= fdt.off_dt_struct <= fdt.buf.Length && fdt.off_dt_struct + Used(calls) <= fdt.totalsize
  {
  }

  // ----- the reservation map -----

  lemma SizeWords(e: Reservation)
    requires Writable(e)
    ensures U32(EntryBytes(e), 8) == e.size / U32_SPAN && U32(EntryBytes(e), 12) == e.size % U32_SPAN
  {
    var b := EntryBytes(e);
    hide U32;
    assert b[8..12] == Put32(e.size / U32_SPAN)[0..4] && b[12..16] == Put32(e.size % U32_SPAN)[0..4];
    U32Within(b, Put32(e.size / U32_SPAN), 8, 0);
    U32Within(b, Put32(e.size % U32_SPAN), 12, 0);
  }

  lemma {:induction false} MapEntry(rsv: seq<Reservation>, i: nat)
    requires AllWritable(rsv) && i < |rsv|
    ensures MapBytes(rsv)[16 * i..16 * i + 16] == EntryBytes(rsv[i])
  {
    hide EntryBytes;
    if i < |rsv| - 1 {
      MapEntry(rsv[..|rsv| - 1], i);
      assert MapBytes(rsv)[16 * i..16 * i + 16] == MapBytes(rsv[..|rsv| - 1])[16 * i..16 * i + 16];
    }
  }

  lemma EntryIsUsed(b: seq<byte>, p: nat, i: nat, e: Reservation)
    requires p + 16 * (i + 1) <= |b| && Writable(e)
    requires b[p + 16 * i..p + 16 * i + 16] == EntryBytes(e)
    ensures EntryUsed(b, p, i) <==> e.size != 0
  {
    var o, w := p + 16 * i, EntryBytes(e);
    SizeWords(e);
    hide U32, EntryBytes;
    SliceOfSlice(b, o, o + 16, 8, 12);
    SliceOfSlice(b, o, o + 16, 12, 16);
    U32Within(b, w, o + 8, 8);
    U32Within(b, w, o + 12, 12);
  }

  /** The written map reads back as its entries up to the first of size zero; so it is the one asked for
      if and only if there is none. */
  lemma MapReserves(b: seq<byte>, rsv: seq<Reservation>)
    requires AllWritable(rsv)
    requires 48 + 16 * (|rsv| + 1) <= |b|
    requires b[48..48 + 16 * (|rsv| + 1)] == MapBytes(rsv) + EntryBytes(Reservation(0, 0))
    ensures Reserves(b, 48, UsedEntries(rsv))
    ensures Reserves(b, 48, |rsv|) <==> AllReservable(rsv)
  {
    hide EntryBytes, MapBytes, EntryUsed, UsedEntries;
    var n := |rsv|;
    forall i | 0 <= i <= n ensures EntryUsed(b, 48, i) <==> i < n && rsv[i].size > 0 {
      MapAt(b, rsv, i);
    }
  }

  lemma MapAt(b: seq<byte>, rsv: seq<Reservation>, i: nat)
    requires AllWritable(rsv) && i <= |rsv| && 48 + 16 * (|rsv| + 1) <= |b|
    requires b[48..48 + 16 * (|rsv| + 1)] == MapBytes(rsv) + EntryBytes(Reservation(0, 0))
    ensures EntryUsed(b, 48, i) <==> i < |rsv| && rsv[i].size > 0
  {
    hide EntryBytes, MapBytes, EntryUsed;
    var n, m, last := |rsv|, MapBytes(rsv), EntryBytes(Reservation(0, 0));
    var e := if i < n then rsv[i] else Reservation(0, 0);
    SliceOfSlice(b, 48, 48 + 16 * (n + 1), 16 * i, 16 * i + 16);
    MapPart(rsv, i);
    EntryIsUsed(b, 48, i, e);
  }

  lemma MapPart(rsv: seq<Reservation>, i: nat)
    requires AllWritable(rsv) && i <= |rsv|
    ensures var e := if i < |rsv| then rsv[i] else Reservation(0, 0);
            (MapBytes(rsv) + EntryBytes(Reservation(0, 0)))[16 * i..16 * i + 16] == EntryBytes(e)
  {
    hide EntryBytes, MapBytes;
    var m, last := MapBytes(rsv), EntryBytes(Reservation(0, 0));
    if i < |rsv| {
      MapEntry(rsv, i);
      SliceOfFirst(m, last, 16 * i, 16 * i + 16);
    } else {
      SliceOfLast(m, last);
    }
  }

  lemma SliceOfFirst(m: seq<byte>, l: seq<byte>, i: nat, j: nat)
    requires i <= j <= |m|
    ensures (m + l)[i..j] == m[i..j]
  {
  }

  lemma SliceOfLast(m: seq<byte>, l: seq<byte>)
    ensures (m + l)[|m|..|m| + |l|] == l
  {
  }

  // ----- the round trip -----

  /** The tag a call writes. */
  function CallTag(call: Token): nat {
    match call
    case BeginNode(_) => FDT_BEGIN_NODE
    case Property(_, _) => FDT_PROP
    case EndOfNode => FDT_END_NODE
  }

  /** Reading tag after tag from the start gives those of the calls, in order, and then FDT_END. */
  ghost predicate ReadsTag(s: seq<byte>, items: seq<Item>, calls: seq<Token>, k: nat)
    requires |items| == |calls| && k <= |calls|
  {
    && |s| <= MAX_STRUCT && Off(items, k) < 0x8000_0000
    && NextTag(s, Off(items, k)) ==
       if k < |calls| then Tag(CallTag(calls[k]), Off(items, k + 1)) else Tag(FDT_END, Off(items, k) + 4)
  }

  lemma SpelledReads(s: seq<byte>, items: seq<Item>, calls: seq<Token>, table: seq<byte>, k: nat)
    requires Layout(s, items) && Spells(items, calls, table) && k <= |calls|
    ensures ReadsTag(s, items, calls, k)
  {
    hide NextTag, U32, StringAt;
    WalkIsItems(s, items, k);
    OffAligned(s, items, k);
    if k < |calls| {
      assert TokenOf(items[k], table) == [calls[k]];
    }
  }

  /** What a finished blob takes: header and reservation map, structure, end tag and strings. */
  ghost function SizeNeeded(rsv: seq<Reservation>, calls: seq<Token>): nat {
    48 + 16 * (|rsv| + 1) + Used(calls) + 4
  }

  /** Some call strays. */
  ghost predicate SomeStrays(base: nat, calls: seq<Token>, totalsize: nat) {
    exists n: nat :: Strays(base, calls, n, totalsize)
  }

  /** For every list of reservations and every sequence of calls: they all return 0 exactly when the
      buffer is large enough. Then the blob parses to one item for each call, reading tag after tag gives
      the calls' tags in order and FDT_END, names and values are those of the calls, the reservation map
      holds the reservations, of which a reader sees those before the first of size zero, and the blob is
      one the editor accepts. Otherwise the run ends for lack of space, unless a call strays. */
  method Serialize(fdt: Blob, rsv: seq<Reservation>, calls: seq<Token>) returns (r: int, ghost items: seq<Item>)
    requires fdt.buf.Length <= MAX_STRUCT
    requires AllWritable(rsv) && (forall c :: c in calls ==> Callable(c))
    modifies fdt, fdt.buf
    ensures r == if SizeNeeded(rsv, calls) <= fdt.buf.Length then 0
                 else if SomeStrays(48 + 16 * (|rsv| + 1), calls, fdt.buf.Length) then STRAY
                 else -FDT_ERR_NOSPACE
    ensures r == 0 ==>
              && Complete(fdt) && Editable(fdt, items) && InOrder(fdt, UsedEntries(rsv))
              && Parse(fdt.Struct(), 0) == Some(items) && Spells(items, calls, fdt.Strings())
              && (forall k {:trigger Off(items, k)} :: 0 <= k <= |calls| ==> ReadsTag(fdt.Struct(), items, calls, k))
              && Meaning(items, fdt.Strings()) == calls
              && fdt.off_dt_struct == 48 + 16 * (|rsv| + 1)
              && Reserved(fdt) == MapBytes(rsv) + EntryBytes(Reservation(0, 0))
              && (InOrder(fdt, |rsv|) <==> AllReservable(rsv))
  {
    hide Writing, Reserved, Table, Spells, Meaning, Layout, NamesOk, MapBytes, EntryBytes, UsedEntries, InOrder, Strays;
    items := [];
    r := Begin(fdt, rsv);
    if r != 0 {
      NoneStrays(rsv, calls, fdt.buf.Length);
      return;
    }
    r, items := WriteBody(fdt, calls);
    if r == 0 {
      WrittenIsEditable(fdt, rsv, items);
      SpellsMeans(items, calls, fdt.Strings());
      forall k | 0 <= k <= |calls| ensures |items| == |calls| && ReadsTag(fdt.Struct(), items, calls, k) {
        SpelledLength(items, calls, fdt.Strings());
        SpelledReads(fdt.Struct(), items, calls, fdt.Strings(), k);
      }
    }
  }

  /** When there is no room for the map, no call is made. */
  lemma NoneStrays(rsv: seq<Reservation>, calls: seq<Token>, totalsize: nat)
    requires 48 + 16 * (|rsv| + 1) > totalsize
    ensures !SomeStrays(48 + 16 * (|rsv| + 1), calls, totalsize)
  {
    hide Used, NameStrays;
  }

  lemma SpelledLength(items: seq<Item>, calls: seq<Token>, table: seq<byte>)
    requires Spells(items, calls, table)
    ensures |items| == |calls|
  {
  }

  /** The calls and `fdt_finish`. */
  method WriteBody(fdt: Blob, calls: seq<Token>) returns (r: int, ghost items: seq<Item>)
    requires Written(fdt, [], []) && forall c :: c in calls ==> Callable(c)
    modifies fdt, fdt.buf
    ensures r == if old(fdt.off_dt_struct) + Used(calls) + 4 <= old(fdt.totalsize) then 0
                 else if SomeStrays(old(fdt.off_dt_struct), calls, old(fdt.totalsize)) then STRAY
                 else -FDT_ERR_NOSPACE
    ensures r == 0 ==> Complete(fdt) && HoldsNamed(fdt, items) && Spells(items, calls, fdt.Strings())
    ensures r == 0 ==> fdt.off_dt_struct == old(fdt.off_dt_struct) && Reserved(fdt) == old(Reserved(fdt))
  {
    hide Writing, HoldsNamed, Complete, Reserved, Spells, Table, Strays, Used, FinishCode;
    ghost var base, size := fdt.off_dt_struct, fdt.totalsize;
    var n: nat;
    r, n, items := WriteAll(fdt, calls);
    if m: nat :| Strays(base, calls, m, size) {
      StraysFirst(base, calls, n, m, size);
    }
    if r == 0 {
      WrittenIsBegun(fdt, items, calls);
      r, items := Finish(fdt, items, calls);
    }
  }

  lemma WrittenIsBegun(fdt: Blob, items: seq<Item>, calls: seq<Token>)
    requires Written(fdt, items, calls)
    ensures fdt.magic == FDT_SW_MAGIC && Sound(fdt) && Begun(fdt, items, calls)
    ensures fdt.size_dt_struct + fdt.size_dt_strings == Used(calls)
  {
  }

  lemma WrittenIsEditable(fdt: Blob, rsv: seq<Reservation>, items: seq<Item>)
    requires Complete(fdt) && HoldsNamed(fdt, items) && fdt.off_dt_struct == 48 + 16 * (|rsv| + 1)
    requires AllWritable(rsv)
    requires Reserved(fdt) == MapBytes(rsv) + EntryBytes(Reservation(0, 0))
    ensures Editable(fdt, items) && Parse(fdt.Struct(), 0) == Some(items)
    ensures InOrder(fdt, UsedEntries(rsv)) && (InOrder(fdt, |rsv|) <==> AllReservable(rsv))
  {
    hide Layout, NamesOk, MapBytes, EntryBytes, Reserves, Parse, UsedEntries, AllReservable;
    MapReserves(fdt.Bytes(), rsv);
    LayoutShort(fdt.Struct(), items);
    ParseIffLayout(fdt.Struct(), items);
  }

  lemma LayoutShort(s: seq<byte>, items: seq<Item>)
    requires Layout(s, items)
    ensures |s| <= MAX_STRUCT
  {
  }
}
