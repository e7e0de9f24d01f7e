/** `fdt_pack`: the blocks of a blob are moved together, in place. */
module FdtPack {
  import opened FdtFormat
  import opened FdtBlob
  import opened FdtStrings
  import opened FdtRead
  import opened FdtWrite
  import opened FdtEdit

  /** The size of entry `i` of the reservation map at `p` is not zero. */
  predicate EntryUsed(b: seq<byte>, p: nat, i: nat)
    requires p + 16 * (i + 1) <= |b|
  {
    U32(b, p + 16 * i + 8) != 0 || U32(b, p + 16 * i + 12) != 0
  }

  /** From `p` on there are `n` used reservation entries and then an empty one. */
  ghost predicate Reserves(b: seq<byte>, p: nat, n: nat) {
    && p + 16 * (n + 1) <= |b| && !EntryUsed(b, p, n)
    && forall i :: 0 <= i < n ==> EntryUsed(b, p, i)
  }

  /** The blocks are in order, and the reservation map, once it has been moved to the front, does not reach
      the structure. */
  ghost predicate InOrder(fdt: Blob, n: nat)
    reads fdt, fdt.buf
  {
    && Ready(fdt) && Reserves(fdt.Bytes(), fdt.off_mem_rsvmap, n)
    && fdt.off_mem_rsvmap + 16 * (n + 1) <= fdt.buf.Length && RW_RSVMAP_MIN + 16 * (n + 1) <= fdt.off_dt_struct
  }

  /** The reservation block with its last, empty entry. */
  ghost function Rsvmap(fdt: Blob, n: nat): seq<byte>
    requires fdt.off_mem_rsvmap + 16 * (n + 1) <= fdt.buf.Length
    reads fdt, fdt.buf
  {
    fdt.Bytes()[fdt.off_mem_rsvmap..fdt.off_mem_rsvmap + 16 * (n + 1)]
  }

  /** No byte lies between the blocks. */
  ghost predicate Packed(fdt: Blob, n: nat)
    reads fdt
  {
    && fdt.off_mem_rsvmap == RW_RSVMAP_MIN
    && fdt.off_dt_struct == fdt.off_mem_rsvmap + 16 * (n + 1)
    && fdt.off_dt_strings == fdt.off_dt_struct + fdt.size_dt_struct
    && fdt.totalsize == fdt.off_dt_strings + fdt.size_dt_strings
  }

  /** `fdt_num_mem_rsv`. */
  method NumMemRsv(fdt: Blob, ghost n: nat) returns (i: nat)
    requires Reserves(fdt.Bytes(), fdt.off_mem_rsvmap, n)
    ensures i == n
  {
    hide U32;
    i := 0;
    while EntryUsed(fdt.buf[..], fdt.off_mem_rsvmap, i)
      invariant i <= n
      decreases n - i
    {
      i := i + 1;
    }
  }

  lemma Views(fdt: Blob, n: nat)
    requires Ready(fdt) && fdt.off_mem_rsvmap + 16 * (n + 1) <= fdt.buf.Length
    ensures Rsvmap(fdt, n) == fdt.Bytes()[fdt.off_mem_rsvmap..fdt.off_mem_rsvmap + 16 * (n + 1)]
    ensures fdt.Struct() == fdt.Bytes()[fdt.off_dt_struct..fdt.off_dt_struct + fdt.size_dt_struct]
    ensures fdt.Strings() == fdt.Bytes()[fdt.off_dt_strings..fdt.off_dt_strings + fdt.size_dt_strings]
  {
  }

  /** The moves of `_fdt_packblocks`; none of them reads a header field that is set between them. */
  method MoveBlocks(fdt: Blob, structOff: nat, stringsOff: nat, memRsvSize: nat, structSize: nat)
    requires fdt.InBuffer() && structSize == fdt.size_dt_struct
    requires 40 <= fdt.off_mem_rsvmap && fdt.off_mem_rsvmap + memRsvSize <= fdt.buf.Length
    requires structOff <= fdt.off_dt_struct && fdt.off_dt_struct + structSize <= fdt.off_dt_strings
    requires structOff == 40 + memRsvSize && stringsOff == structOff + structSize
    modifies fdt.buf
    ensures var b, c := old(fdt.Bytes()), fdt.Bytes();
            && c[40..structOff] == b[fdt.off_mem_rsvmap..fdt.off_mem_rsvmap + memRsvSize]
            && c[structOff..stringsOff] == b[fdt.off_dt_struct..fdt.off_dt_struct + structSize]
            && c[stringsOff..stringsOff + fdt.size_dt_strings] == b[fdt.off_dt_strings..fdt.off_dt_strings + fdt.size_dt_strings]
            && (fdt.off_mem_rsvmap == 40 && fdt.off_dt_struct == structOff && fdt.off_dt_strings == stringsOff ==> c == b)
  {
    hide Blob.Bytes;
    ghost var b := fdt.Bytes();
    MoveFront(fdt, structOff, memRsvSize, structSize);
    ghost var d := fdt.Bytes();
    MoveBytes(fdt, stringsOff, fdt.off_dt_strings, fdt.size_dt_strings);
    ghost var e := fdt.Bytes();
    KeptAbove(b, d, stringsOff, fdt.off_dt_strings, fdt.off_dt_strings + fdt.size_dt_strings);
    KeptBelow(d, e, stringsOff, 40, structOff);
    KeptBelow(d, e, stringsOff, structOff, stringsOff);
  }

  /** The first two. */
  method MoveFront(fdt: Blob, structOff: nat, memRsvSize: nat, structSize: nat)
    requires fdt.InBuffer() && structSize == fdt.size_dt_struct
    requires 40 <= fdt.off_mem_rsvmap && fdt.off_mem_rsvmap + memRsvSize <= fdt.buf.Length
    requires structOff == 40 + memRsvSize <= fdt.off_dt_struct
    modifies fdt.buf
    ensures var b, c := old(fdt.Bytes()), fdt.Bytes();
            && c[40..structOff] == b[fdt.off_mem_rsvmap..fdt.off_mem_rsvmap + memRsvSize]
            && c[structOff..structOff + structSize] == b[fdt.off_dt_struct..fdt.off_dt_struct + structSize]
            && c[structOff + structSize..] == b[structOff + structSize..]
            && (fdt.off_mem_rsvmap == 40 && fdt.off_dt_struct == structOff ==> c == b)
  {
    hide Blob.Bytes;
    ghost var b := fdt.Bytes();
    MoveBytes(fdt, RW_RSVMAP_MIN, fdt.off_mem_rsvmap, memRsvSize);
    ghost var c := fdt.Bytes();
    MoveBytes(fdt, structOff, fdt.off_dt_struct, structSize);
    ghost var d, q, o := fdt.Bytes(), fdt.off_dt_struct, structOff + structSize;
    KeptAbove(b, c, structOff, q, q + structSize);
    KeptAbove(b, c, structOff, o, |b|);
    KeptBelow(c, d, structOff, 40, structOff);
    assert c[o..] == c[o..|b|] && b[o..] == b[o..|b|];
  }

  /** `_fdt_packblocks` within one buffer. */
  method PackBlocks(fdt: Blob, memRsvSize: nat, structSize: nat, ghost n: nat)
    requires InOrder(fdt, n) && memRsvSize == 16 * (n + 1) && structSize == fdt.size_dt_struct
    modifies fdt`off_mem_rsvmap, fdt`off_dt_struct, fdt`size_dt_struct, fdt`off_dt_strings, fdt.buf
    ensures fdt.off_mem_rsvmap == RW_RSVMAP_MIN && fdt.off_dt_struct == fdt.off_mem_rsvmap + memRsvSize
    ensures fdt.off_dt_strings == fdt.off_dt_struct + structSize && fdt.size_dt_struct == structSize
    ensures fdt.off_dt_strings <= old(fdt.off_dt_strings) && Ready(fdt)
    ensures Rsvmap(fdt, n) == old(Rsvmap(fdt, n)) && fdt.Struct() == old(fdt.Struct()) && fdt.Strings() == old(fdt.Strings())
    ensures old(Packed(fdt, n)) ==> fdt.Bytes() == old(fdt.Bytes())
  {
    hide Blob.Bytes, Blob.Struct, Blob.Strings, Rsvmap, Reserves;
    Views(fdt, n);
    var memRsvOff := RW_RSVMAP_MIN;
    var structOff := memRsvOff + memRsvSize;
    var stringsOff := structOff + structSize;
    MoveBlocks(fdt, structOff, stringsOff, memRsvSize, structSize);
    fdt.off_mem_rsvmap := memRsvOff;
    fdt.off_dt_struct := structOff;
    fdt.size_dt_struct := structSize;
    fdt.off_dt_strings := stringsOff;
    Views(fdt, n);
  }

  /** The reservation map goes where its bytes go. */
  lemma ReservesMoved(b: seq<byte>, p: nat, c: seq<byte>, q: nat, n: nat)
    requires Reserves(b, p, n) && q + 16 * (n + 1) <= |c| && c[q..q + 16 * (n + 1)] == b[p..p + 16 * (n + 1)]
    ensures Reserves(c, q, n)
  {
    hide U32;
    forall i | 0 <= i <= n ensures EntryUsed(c, q, i) == EntryUsed(b, p, i) {
      SubSlice(b, p, c, q, 16 * (n + 1), 16 * i + 8, 16 * i + 12);
      SubSlice(b, p, c, q, 16 * (n + 1), 16 * i + 12, 16 * i + 16);
      U32Within(b, c, p + 16 * i + 8, q + 16 * i + 8);
      U32Within(b, c, p + 16 * i + 12, q + 16 * i + 12);
    }
  }

  /** The last statement of `fdt_pack`. */
  method SetTotalsize(fdt: Blob, ghost n: nat)
    requires Ready(fdt) && fdt.off_mem_rsvmap + 16 * (n + 1) <= fdt.buf.Length
    modifies fdt`totalsize
    ensures fdt.totalsize == DataSize(fdt) && Ready(fdt)
    ensures Rsvmap(fdt, n) == old(Rsvmap(fdt, n)) && fdt.Struct() == old(fdt.Struct()) && fdt.Strings() == old(fdt.Strings())
  {
    fdt.totalsize := DataSize(fdt);
  }

  /** `fdt_pack`: the same reservations, structure and strings without gaps between them; on a packed
      blob it changes nothing. */
  method Pack(fdt: Blob, ghost n: nat) returns (r: int)
    requires RwCode(fdt) == 0 ==> InOrder(fdt, n)
    modifies fdt`version, fdt`totalsize, fdt`off_mem_rsvmap, fdt`off_dt_struct, fdt`size_dt_struct, fdt`off_dt_strings, fdt.buf
    ensures r == old(RwCode(fdt))
    ensures r != 0 ==> fdt.Bytes() == old(fdt.Bytes())
    ensures r == 0 ==>
              && InOrder(fdt, n) && Packed(fdt, n) && fdt.totalsize <= old(fdt.totalsize)
              && Rsvmap(fdt, n) == old(Rsvmap(fdt, n)) && fdt.Struct() == old(fdt.Struct()) && fdt.Strings() == old(fdt.Strings())
    ensures r == 0 && old(Packed(fdt, n)) ==>
              && fdt.Bytes() == old(fdt.Bytes()) && fdt.totalsize == old(fdt.totalsize)
              && fdt.off_mem_rsvmap == old(fdt.off_mem_rsvmap) && fdt.off_dt_struct == old(fdt.off_dt_struct)
              && fdt.size_dt_struct == old(fdt.size_dt_struct) && fdt.off_dt_strings == old(fdt.off_dt_strings)
  {
    hide Reserves, Rsvmap, Misordered, Blob.Bytes, Blob.Struct, Blob.Strings;
    if RwCode(fdt) == 0 {
      Views(fdt, n);
    }
    r := RwCheckHeader(fdt);
    if r == 0 {
      Views(fdt, n);
      ghost var b, p := fdt.Bytes(), fdt.off_mem_rsvmap;
      var count := NumMemRsv(fdt, n);
      PackBlocks(fdt, (count + 1) * RESERVE_ENTRY_SIZE, fdt.size_dt_struct, n);
      SetTotalsize(fdt, n);
      Views(fdt, n);
      ReservesMoved(b, p, fdt.Bytes(), fdt.off_mem_rsvmap, n);
    }
  }

  /** Packing keeps what the blob holds. */
  method PackKeepsTree(fdt: Blob, ghost n: nat, ghost items: seq<Item>) returns (r: int)
    requires InOrder(fdt, n) && HoldsNamed(fdt, items)
    modifies fdt`version, fdt`totalsize, fdt`off_mem_rsvmap, fdt`off_dt_struct, fdt`size_dt_struct, fdt`off_dt_strings, fdt.buf
    ensures r == 0 && Editable(fdt, items) && Meaning(items, fdt.Strings()) == old(Meaning(items, fdt.Strings()))
  {
    ReadyPasses(fdt);
    r := Pack(fdt, n);
  }

  /** A node put before the structure block takes the end of a reservation map that reaches up to it: its
      last entry does not end the map any more. */
  lemma MapRunsOn(fdt: Blob, n: nat, name: seq<byte>)
    requires fdt.off_mem_rsvmap + 16 * (n + 1) == fdt.off_dt_struct <= fdt.buf.Length
    requires |NodeBytes(name)| >= 8 && Before(fdt, 8) == NodeBytes(name)[..8]
    ensures EntryUsed(fdt.Bytes(), fdt.off_mem_rsvmap, n)
  {
    hide U32;
    var b, o, val := fdt.Bytes(), fdt.off_dt_struct - 8, NodeBytes(name);
    NodeBytesParts(name);
    assert val[0..4] == val[0..5 + |name|][0..4] == Put32(FDT_BEGIN_NODE);
    SliceOfSlice(b, o, o + 8, 0, 4);
    assert b[o..o + 4] == val[..8][0..4] == val[0..4];
    U32Within(b, Put32(FDT_BEGIN_NODE), o, 0);
  }
}
