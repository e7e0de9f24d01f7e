/** A device tree blob in memory: the header as fields, everything else as the bytes of a buffer. */
module FdtBlob {
  import opened FdtFormat

  const FDT_MAGIC := 0xd00d_feed
  const FDT_SW_MAGIC := 0xFFFF_FFFF - 0xd00d_feed
  const FDT_LAST_SUPPORTED_VERSION := 17
  const FDT_FIRST_SUPPORTED_VERSION := 16
  const HEADER_SIZE := 40
  const RESERVE_ENTRY_SIZE := 16

  class Blob {
    const buf: array<byte>
    var magic: nat
    var totalsize: nat
    var off_dt_struct: nat
    var off_dt_strings: nat
    var off_mem_rsvmap: nat
    var version: nat
    var last_comp_version: nat
    var size_dt_strings: nat
    var size_dt_struct: nat

    /** The blocks lie inside the buffer, and the buffer is one an `int` can measure. */
    ghost predicate InBuffer()
      reads this
    {
      && totalsize <= buf.Length <= MAX_STRUCT
      && off_dt_struct + size_dt_struct <= buf.Length
      && off_dt_strings + size_dt_strings <= buf.Length
    }

    /** The whole buffer. */
    function Bytes(): (s: seq<byte>)
      reads buf
      ensures |s| == buf.Length
    {
      buf[..]
    }

    function Struct(): (s: seq<byte>)
      requires off_dt_struct + size_dt_struct <= buf.Length
      reads this, buf
      ensures |s| == size_dt_struct
    {
      Bytes()[off_dt_struct..off_dt_struct + size_dt_struct]
    }

    function Strings(): (s: seq<byte>)
      requires off_dt_strings + size_dt_strings <= buf.Length
      reads this, buf
      ensures |s| == size_dt_strings
    {
      Bytes()[off_dt_strings..off_dt_strings + size_dt_strings]
    }

    /** `fdt32_to_cpu` of the word at offset `o` of the structure block. */
    function Word(o: nat): (v: nat)
      requires off_dt_struct + size_dt_struct <= buf.Length && o + 4 <= size_dt_struct
      reads this, buf
      ensures v == U32(Struct(), o)
    {
      SliceOfSlice(buf[..], off_dt_struct, off_dt_struct + size_dt_struct, o, o + 4);
      assert buf[off_dt_struct + o..off_dt_struct + o + 4] == Struct()[o..o + 4];
      U32Within(buf[off_dt_struct + o..off_dt_struct + o + 4], Struct(), 0, o);
      U32(buf[off_dt_struct + o..off_dt_struct + o + 4], 0)
    }
  }

  /** The blocks as parts of the buffer. */
  lemma BlobViews(fdt: Blob)
    requires fdt.off_dt_struct + fdt.size_dt_struct <= fdt.buf.Length && fdt.off_dt_strings + fdt.size_dt_strings <= fdt.buf.Length
    ensures fdt.Struct() == fdt.Bytes()[fdt.off_dt_struct..fdt.off_dt_struct + fdt.size_dt_struct]
    ensures fdt.Strings() == fdt.Bytes()[fdt.off_dt_strings..fdt.off_dt_strings + fdt.size_dt_strings]
  {
  }

  /** `memmove` within one buffer: copy downwards when the source lies below, upwards otherwise. */
  method MemMove(a: array<byte>, dst: nat, src: nat, len: nat)
    requires src + len <= a.Length && dst + len <= a.Length
    modifies a
    ensures a[dst..dst + len] == old(a[src..src + len])
    ensures a[..dst] == old(a[..dst]) && a[dst + len..] == old(a[dst + len..])
  {
    ghost var was := a[..];
    if src < dst {
      CopyDownwards(a, dst, src, len);
    } else {
      CopyUpwards(a, dst, src, len);
    }
    Copied(was, a[..], dst, src, len);
  }

  method CopyDownwards(a: array<byte>, dst: nat, src: nat, len: nat)
    requires src < dst && dst + len <= a.Length
    modifies a
    ensures forall k :: 0 <= k < a.Length ==> a[k] == old(a[if dst <= k < dst + len then k - dst + src else k])
  {
    var n := len;
    while n > 0
      invariant 0 <= n <= len
      invariant forall k :: 0 <= k < a.Length ==> a[k] == old(a[if dst + n <= k < dst + len then k - dst + src else k])
    {
      n := n - 1;
      a[dst + n] := a[src + n];
    }
  }

  method CopyUpwards(a: array<byte>, dst: nat, src: nat, len: nat)
    requires dst <= src && src + len <= a.Length
    modifies a
    ensures forall k :: 0 <= k < a.Length ==> a[k] == old(a[if dst <= k < dst + len then k - dst + src else k])
  {
    var n := 0;
    while n < len
      invariant 0 <= n <= len
      invariant forall k :: 0 <= k < a.Length ==> a[k] == old(a[if dst <= k < dst + n then k - dst + src else k])
    {
      a[dst + n] := a[src + n];
      n := n + 1;
    }
  }

  lemma Copied(b: seq<byte>, c: seq<byte>, dst: nat, src: nat, len: nat)
    requires |c| == |b| && src + len <= |b| && dst + len <= |b|
    requires forall k :: 0 <= k < |c| ==> c[k] == b[if dst <= k < dst + len then k - dst + src else k]
    ensures c[dst..dst + len] == b[src..src + len] && c[..dst] == b[..dst] && c[dst + len..] == b[dst + len..]
  {
  }

  /** `memcpy` of bytes from outside the buffer. */
  method MemCpy(a: array<byte>, dst: nat, val: seq<byte>)
    requires dst + |val| <= a.Length
    modifies a
    ensures a[dst..dst + |val|] == val
    ensures a[..dst] == old(a[..dst]) && a[dst + |val|..] == old(a[dst + |val|..])
  {
    var n := 0;
    while n < |val|
      invariant 0 <= n <= |val|
      invariant a[dst..dst + n] == val[..n]
      invariant a[..dst] == old(a[..dst]) && a[dst + |val|..] == old(a[dst + |val|..])
    {
      a[dst + n] := val[n];
      assert a[dst..dst + n + 1] == a[dst..dst + n] + [val[n]];
      n := n + 1;
    }
  }

  /** `memcpy` into a blob's buffer. */
  method PutBytes(fdt: Blob, dst: nat, val: seq<byte>)
    requires dst + |val| <= fdt.buf.Length
    modifies fdt.buf
    ensures fdt.Bytes()[dst..dst + |val|] == val
    ensures fdt.Bytes()[..dst] == old(fdt.Bytes())[..dst]
    ensures fdt.Bytes()[dst + |val|..] == old(fdt.Bytes())[dst + |val|..]
  {
    MemCpy(fdt.buf, dst, val);
  }

  /** `memmove` inside a blob's buffer. */
  method MoveBytes(fdt: Blob, dst: nat, src: nat, len: nat)
    requires src + len <= fdt.buf.Length && dst + len <= fdt.buf.Length
    modifies fdt.buf
    ensures fdt.Bytes()[dst..dst + len] == old(fdt.Bytes())[src..src + len]
    ensures fdt.Bytes()[..dst] == old(fdt.Bytes())[..dst]
    ensures fdt.Bytes()[dst + len..] == old(fdt.Bytes())[dst + len..]
    ensures dst == src ==> fdt.Bytes() == old(fdt.Bytes())
  {
    ghost var was := fdt.Bytes();
    MemMove(fdt.buf, dst, src, len);
    if dst == src {
      NotMoved(was, fdt.Bytes(), dst, len);
    }
  }

  lemma NotMoved(b: seq<byte>, c: seq<byte>, p: nat, n: nat)
    requires |b| == |c| && p + n <= |b| && c[..p] == b[..p] && c[p..p + n] == b[p..p + n] && c[p + n..] == b[p + n..]
    ensures c == b
  {
    assert b == b[..p] + b[p..p + n] + b[p + n..];
    assert c == c[..p] + c[p..p + n] + c[p + n..];
  }
}
