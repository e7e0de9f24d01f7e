/** The structure block of a flattened device tree (Devicetree Specification v0.4, section 5.4):
    its items, their bytes, and the tag reader, in the 32-bit arithmetic of the C code. */
module FdtFormat {
  import opened Wrappers

  type byte = b: int | 0 <= b < 256

  const U32_SPAN := 0x1_0000_0000
  /** The largest structure block for which aligning an offset cannot overflow an `int`. */
  const MAX_STRUCT := 0x7FFF_FFFC

  const FDT_BEGIN_NODE := 1
  const FDT_END_NODE := 2
  const FDT_PROP := 3
  const FDT_NOP := 4
  const FDT_END := 9
  const FDT_TAGSIZE := 4

  const FDT_ERR_NOTFOUND := 1
  const FDT_ERR_EXISTS := 2
  const FDT_ERR_NOSPACE := 3
  const FDT_ERR_BADOFFSET := 4
  const FDT_ERR_BADPATH := 5
  const FDT_ERR_BADSTATE := 7
  const FDT_ERR_TRUNCATED := 8
  const FDT_ERR_BADMAGIC := 9
  const FDT_ERR_BADVERSION := 10
  const FDT_ERR_BADSTRUCTURE := 11
  const FDT_ERR_BADLAYOUT := 12

  // ----- words and alignment -----

  function U16(s: seq<byte>, i: nat): (v: nat)
    requires i + 2 <= |s|
    ensures v < 0x1_0000
  {
    (s[i] as int) * 0x100 + s[i + 1] as int
  }

  /** `fdt32_to_cpu` of the word at `i`. */
  function U32(s: seq<byte>, i: nat): (v: nat)
    requires i + 4 <= |s|
    ensures v < U32_SPAN
  {
    U16(s, i) * 0x1_0000 + U16(s, i + 2)
  }

  function Put16(v: nat): (s: seq<byte>)
    requires v < 0x1_0000
    ensures |s| == 2 && U16(s, 0) == v
  {
    [v / 0x100, v % 0x100]
  }

  /** `cpu_to_fdt32`. */
  function Put32(v: nat): (s: seq<byte>)
    requires v < U32_SPAN
    ensures |s| == 4 && U32(s, 0) == v
  {
    var hi, lo := Put16(v / 0x1_0000), Put16(v % 0x1_0000);
    assert U16(hi + lo, 0) == U16(hi, 0) && U16(hi + lo, 2) == U16(lo, 0);
    hi + lo
  }

  lemma U32Within(s: seq<byte>, t: seq<byte>, i: nat, j: nat)
    requires i + 4 <= |s| && j + 4 <= |t| && s[i..i + 4] == t[j..j + 4]
    ensures U32(s, i) == U32(t, j)
  {
    var w := s[i..i + 4];
    assert s[i] == w[0] && s[i + 1] == w[1] && s[i + 2] == w[2] && s[i + 3] == w[3];
    assert t[j] == w[0] && t[j + 1] == w[1] && t[j + 2] == w[2] && t[j + 3] == w[3];
  }

  /** Two's complement conversion to `int`. */
  function Int32(x: int): int {
    (x + 0x8000_0000) % U32_SPAN - 0x8000_0000
  }

  /** `FDT_TAGALIGN`. */
  function Align(x: nat): nat {
    (x + 3) / 4 * 4
  }

  /** The bytes that bring `n` to a tag boundary. */
  function PadLen(n: nat): nat {
    Align(n) - n
  }

  // ----- reading a tag -----

  /** `fdt_offset_ptr` of a version-17 blob does not return NULL. */
  predicate OffsetOk(size: nat, offset: int, len: int) {
    var o := offset % U32_SPAN;
    var end := (o + len) % U32_SPAN;
    o <= end <= size
  }

  lemma OffsetOkMeans(size: nat, offset: int, len: int)
    requires size < 0x8000_0000 && -0x8000_0000 <= offset < 0x8000_0000 && 0 <= len < U32_SPAN
    ensures OffsetOk(size, offset, len) <==> 0 <= offset && offset + len <= size
  {
    var o := offset % U32_SPAN;
    assert o == if offset < 0 then offset + U32_SPAN else offset;
  }

  datatype Tag = Tag(tag: nat, next: int)

  /** The first zero byte at or after `i`, or the end of the block. */
  function NameEnd(s: seq<byte>, i: nat): (e: nat)
    requires i <= |s|
    ensures i <= e <= |s|
    ensures forall j :: i <= j < e ==> s[j] != 0
    ensures e < |s| ==> s[e] == 0
    decreases |s| - i
  {
    if i == |s| || s[i] == 0 then i else NameEnd(s, i + 1)
  }

  /** How many bytes from `start` on `fdt_next_tag` takes the item there to be, before alignment, as
      an `unsigned int`; none when it gives up before the final bounds check. */
  function ItemLen(s: seq<byte>, start: nat): Option<nat>
    requires start + 4 <= |s|
  {
    var tag := U32(s, start);
    if tag == FDT_BEGIN_NODE then
      var e := NameEnd(s, start + 4);
      if e < |s| then Some(e + 1 - start) else None
    else if tag == FDT_PROP then
      if start + 8 <= |s| then Some((12 + U32(s, start + 4)) % U32_SPAN) else None
    else if tag == FDT_END || tag == FDT_END_NODE || tag == FDT_NOP then Some(4)
    else None
  }

  /** `fdt_next_tag`. */
  function NextTag(s: seq<byte>, start: int): Tag
    requires |s| <= MAX_STRUCT && -0x8000_0000 <= start < 0x8000_0000
  {
    if !OffsetOk(|s|, start, FDT_TAGSIZE) then Tag(FDT_END, -FDT_ERR_TRUNCATED)
    else
      OffsetOkMeans(|s|, start, FDT_TAGSIZE);
      var n := ItemLen(s, start);
      if n == None || !OffsetOk(|s|, start, n.value) then Tag(FDT_END, -FDT_ERR_BADSTRUCTURE)
      else Tag(U32(s, start), Align(start + n.value))
  }

  /** `NextTag` at an offset inside a block, with the 32-bit arithmetic worked out. */
  function PlainNextTag(s: seq<byte>, o: nat): Tag {
    if o + 4 > |s| then Tag(FDT_END, -FDT_ERR_TRUNCATED)
    else
      match ItemLen(s, o)
      case None => Tag(FDT_END, -FDT_ERR_BADSTRUCTURE)
      case Some(n) =>
        if o + n > |s| then Tag(FDT_END, -FDT_ERR_BADSTRUCTURE) else Tag(U32(s, o), Align(o + n))
  }

  lemma NextTagIsPlain(s: seq<byte>, o: nat)
    requires |s| <= MAX_STRUCT && o < 0x8000_0000
    ensures NextTag(s, o) == PlainNextTag(s, o)
  {
    hide U32, ItemLen;
    OffsetOkMeans(|s|, o, FDT_TAGSIZE);
    if o + 4 <= |s| && ItemLen(s, o).Some? {
      ItemLenBound(s, o);
      OffsetOkMeans(|s|, o, ItemLen(s, o).value);
    }
  }

  lemma ItemLenBound(s: seq<byte>, o: nat)
    requires |s| <= MAX_STRUCT && o + 4 <= |s| && ItemLen(s, o).Some?
    ensures ItemLen(s, o).value < U32_SPAN
  {
    hide U32;
  }

  /** A property whose length field makes `fdt_next_tag` come back to the very tag it read: the length
      is added to 12 in 32-bit arithmetic. */
  predicate Stuck(s: seq<byte>, start: nat) {
    && start + 8 <= |s| && U32(s, start) == FDT_PROP && U32(s, start + 4) == U32_SPAN - 12
  }

  /** On every block, malformed or not, a tag other than FDT_END is followed by an aligned offset
      beyond it, with the one exception of a stuck property. */
  lemma NextTagProgress(s: seq<byte>, start: nat)
    requires |s| <= MAX_STRUCT && start < 0x8000_0000 && start % 4 == 0
    ensures var t := NextTag(s, start);
            && (t.tag == FDT_END ==>
                  t.next in {-FDT_ERR_TRUNCATED, -FDT_ERR_BADSTRUCTURE} || (t.next == start + 4 <= |s| && U32(s, start) == FDT_END))
            && (t.tag != FDT_END ==> t.next % 4 == 0 && start <= t.next <= MAX_STRUCT && start + 4 <= |s|
                                     && t.tag in {FDT_BEGIN_NODE, FDT_END_NODE, FDT_PROP, FDT_NOP} && t.tag == U32(s, start))
            && (t.tag != FDT_END ==> (t.next == start <==> Stuck(s, start)))
  {
    NextTagIsPlain(s, start);
    hide NextTag, U32;
  }

  // ----- items -----

  /** One tag with its data. The padding to the next tag is kept: nothing says that it is zero. */
  datatype Item =
    | Begin(name: seq<byte>, pad: seq<byte>)
    | Prop(nameoff: nat, value: seq<byte>, pad: seq<byte>)
    | EndNode
    | Nop
  {
    predicate Ok() {
      match this
      case Begin(name, pad) => 0 !in name && |pad| == PadLen(|name| + 1)
      case Prop(nameoff, value, pad) => nameoff < U32_SPAN && |value| <= MAX_STRUCT && |pad| == PadLen(|value|)
      case EndNode => true
      case Nop => true
    }

    function Tag(): nat {
      match this
      case Begin(_, _) => FDT_BEGIN_NODE
      case Prop(_, _, _) => FDT_PROP
      case EndNode => FDT_END_NODE
      case Nop => FDT_NOP
    }

    function Size(): nat {
      match this
      case Begin(name, pad) => 4 + |name| + 1 + |pad|
      case Prop(_, value, pad) => 12 + |value| + |pad|
      case EndNode => 4
      case Nop => 4
    }

    lemma Aligned()
      requires Ok()
      ensures Size() % 4 == 0 && Size() >= 4
    {
    }
  }

  /** The bytes of the block from `o` on are those of the item. */
  ghost predicate Sits(s: seq<byte>, o: nat, it: Item) {
    && it.Ok() && o + it.Size() <= |s| && U32(s, o) == it.Tag()
    && match it
       case Begin(name, pad) =>
         && s[o + 4..o + 4 + |name|] == name && s[o + 4 + |name|] == 0
         && s[o + 5 + |name|..o + it.Size()] == pad
       case Prop(nameoff, value, pad) =>
         && U32(s, o + 4) == |value| && U32(s, o + 8) == nameoff
         && s[o + 12..o + 12 + |value|] == value
         && s[o + 12 + |value|..o + it.Size()] == pad
       case EndNode => true
       case Nop => true
  }

  lemma SliceOfSlice<T>(s: seq<T>, i: nat, j: nat, a: nat, b: nat)
    requires i <= j <= |s| && a <= b <= j - i
    ensures s[i..j][a..b] == s[i + a..i + b]
  {
    var l, r := s[i..j][a..b], s[i + a..i + b];
    assert |l| == |r|;
    forall k | 0 <= k < |l| ensures l[k] == r[k] {
      assert l[k] == s[i..j][a + k];
    }
  }

  lemma SubSlice(s: seq<byte>, o: nat, t: seq<byte>, p: nat, n: nat, a: nat, b: nat)
    requires o + n <= |s| && p + n <= |t| && s[o..o + n] == t[p..p + n] && a <= b <= n
    ensures s[o + a..o + b] == t[p + a..p + b]
  {
    SliceOfSlice(s, o, o + n, a, b);
    SliceOfSlice(t, p, p + n, a, b);
  }

  /** An item goes where its bytes go. */
  lemma SitsMoved(s: seq<byte>, o: nat, t: seq<byte>, p: nat, it: Item)
    requires Sits(s, o, it) && p + it.Size() <= |t| && s[o..o + it.Size()] == t[p..p + it.Size()]
    ensures Sits(t, p, it)
  {
    it.Aligned();
    SubSlice(s, o, t, p, it.Size(), 0, 4);
    U32Within(s, t, o, p);
    if it.Begin? {
      BeginMoved(s, o, t, p, it);
    } else if it.Prop? {
      PropMoved(s, o, t, p, it);
    }
  }

  lemma BeginMoved(s: seq<byte>, o: nat, t: seq<byte>, p: nat, it: Item)
    requires Sits(s, o, it) && it.Begin? && p + it.Size() <= |t| && s[o..o + it.Size()] == t[p..p + it.Size()]
    ensures t[p + 4..p + 4 + |it.name|] == it.name && t[p + 4 + |it.name|] == 0
    ensures t[p + 5 + |it.name|..p + it.Size()] == it.pad
  {
    hide U32;
    var n, k := it.Size(), |it.name|;
    SubSlice(s, o, t, p, n, 4, 4 + k);
    SubSlice(s, o, t, p, n, 4 + k, 5 + k);
    assert s[o + 4 + k] == s[o + (4 + k)..o + (5 + k)][0];
    assert t[p + 4 + k] == t[p + (4 + k)..p + (5 + k)][0];
    SubSlice(s, o, t, p, n, 5 + k, n);
  }

  lemma PropMoved(s: seq<byte>, o: nat, t: seq<byte>, p: nat, it: Item)
    requires Sits(s, o, it) && it.Prop? && p + it.Size() <= |t| && s[o..o + it.Size()] == t[p..p + it.Size()]
    ensures U32(t, p + 4) == |it.value| && U32(t, p + 8) == it.nameoff
    ensures t[p + 12..p + 12 + |it.value|] == it.value
    ensures t[p + 12 + |it.value|..p + it.Size()] == it.pad
  {
    var n, k := it.Size(), |it.value|;
    SubSlice(s, o, t, p, n, 4, 8);
    U32Within(s, t, o + 4, p + 4);
    SubSlice(s, o, t, p, n, 8, 12);
    U32Within(s, t, o + 8, p + 8);
    hide U32;
    SubSlice(s, o, t, p, n, 12, 12 + k);
    SubSlice(s, o, t, p, n, 12 + k, n);
  }

  lemma NameEndIs(s: seq<byte>, i: nat, name: seq<byte>)
    requires i + |name| < |s| && s[i..i + |name|] == name && 0 !in name && s[i + |name|] == 0
    ensures NameEnd(s, i) == i + |name|
  {
    forall j | i <= j < i + |name| ensures s[j] != 0 {
      assert s[j] == name[j - i];
    }
  }

  /** The item that `fdt_next_tag` delimits at `o`, when it is all inside the block. */
  function ReadItem(s: seq<byte>, o: nat): Option<Item> {
    var t := PlainNextTag(s, o);
    if t.tag == FDT_END || t.next > |s| then None
    else if t.tag == FDT_BEGIN_NODE then
      var e := NameEnd(s, o + 4);
      if e + 1 <= t.next then Some(Begin(s[o + 4..e], s[e + 1..t.next])) else None
    else if t.tag == FDT_PROP then
      if o + 12 <= |s| && o + 12 + U32(s, o + 4) <= t.next then
        var e := o + 12 + U32(s, o + 4);
        Some(Prop(U32(s, o + 8), s[o + 12..e], s[e..t.next]))
      else None
    else if t.tag == FDT_END_NODE then Some(EndNode)
    else Some(Nop)
  }

  lemma Multiple4(a: nat, b: nat)
    requires a % 4 == 0 && b % 4 == 0
    ensures (a + b) % 4 == 0
  {
  }

  lemma AlignedSum(o: nat, n: nat)
    requires o % 4 == 0
    ensures Align(o + n) == o + Align(n)
  {
  }

  lemma SitsIsRead(s: seq<byte>, o: nat, it: Item)
    requires |s| <= MAX_STRUCT && o % 4 == 0 && Sits(s, o, it)
    ensures PlainNextTag(s, o) == Tag(it.Tag(), o + it.Size())
    ensures ReadItem(s, o) == Some(it)
  {
    if it.Begin? {
      BeginIsRead(s, o, it);
    } else if it.Prop? {
      PropIsRead(s, o, it);
    } else {
      hide U32, NameEnd;
    }
  }

  lemma BeginIsRead(s: seq<byte>, o: nat, it: Item)
    requires |s| <= MAX_STRUCT && o % 4 == 0 && Sits(s, o, it) && it.Begin?
    ensures PlainNextTag(s, o) == Tag(FDT_BEGIN_NODE, o + it.Size())
    ensures ReadItem(s, o) == Some(it)
  {
    hide U32, NameEnd;
    var n := |it.name|;
    NameEndIs(s, o + 4, it.name);
    AlignedSum(o, 5 + n);
    assert ItemLen(s, o) == Some(5 + n);
    assert it.Size() == Align(5 + n);
    hide Align, PadLen;
    assert PlainNextTag(s, o) == Tag(FDT_BEGIN_NODE, o + it.Size());
    hide ItemLen, PlainNextTag;
  }

  lemma SmallModulus(n: nat)
    requires n < U32_SPAN
    ensures n % U32_SPAN == n
  {
  }

  lemma PropLen(s: seq<byte>, o: nat, it: Item)
    requires Sits(s, o, it) && it.Prop?
    ensures ItemLen(s, o) == Some(12 + |it.value|) && it.Size() == Align(12 + |it.value|)
  {
    hide U32;
    SmallModulus(12 + |it.value|);
  }

  lemma PropIsRead(s: seq<byte>, o: nat, it: Item)
    requires |s| <= MAX_STRUCT && o % 4 == 0 && Sits(s, o, it) && it.Prop?
    ensures PlainNextTag(s, o) == Tag(FDT_PROP, o + it.Size())
    ensures ReadItem(s, o) == Some(it)
  {
    hide U32, NameEnd, Align, PadLen, ItemLen;
    PropLen(s, o, it);
    AlignedSum(o, 12 + |it.value|);
    assert PlainNextTag(s, o) == Tag(FDT_PROP, o + it.Size());
  }

  lemma ReadSits(s: seq<byte>, o: nat)
    requires |s| <= MAX_STRUCT && o % 4 == 0 && ReadItem(s, o).Some?
    ensures Sits(s, o, ReadItem(s, o).value)
  {
    var tag := U32(s, o);
    if tag == FDT_BEGIN_NODE {
      ReadBegin(s, o);
    } else if tag == FDT_PROP {
      ReadProp(s, o);
    } else {
      hide U32, NameEnd;
    }
  }

  lemma ReadBegin(s: seq<byte>, o: nat)
    requires |s| <= MAX_STRUCT && o % 4 == 0 && ReadItem(s, o).Some? && o + 4 <= |s| && U32(s, o) == FDT_BEGIN_NODE
    ensures Sits(s, o, ReadItem(s, o).value)
  {
    hide U32, NameEnd;
    var e := NameEnd(s, o + 4);
    AlignedSum(o, e + 1 - o);
    assert ItemLen(s, o) == Some(e + 1 - o);
  }

  lemma ReadProp(s: seq<byte>, o: nat)
    requires |s| <= MAX_STRUCT && o % 4 == 0 && ReadItem(s, o).Some? && o + 4 <= |s| && U32(s, o) == FDT_PROP
    ensures Sits(s, o, ReadItem(s, o).value)
  {
    hide U32, NameEnd;
    AlignedSum(o, 12 + U32(s, o + 4));
  }

  /** Reading an item and an item's bytes being there are the same thing, and `fdt_next_tag` at an
      item returns its tag and the offset behind it. */
  lemma ReadItemIffSits(s: seq<byte>, o: nat, it: Item)
    requires |s| <= MAX_STRUCT && o % 4 == 0
    ensures ReadItem(s, o) == Some(it) <==> Sits(s, o, it)
    ensures Sits(s, o, it) ==> NextTag(s, o) == Tag(it.Tag(), o + it.Size())
  {
    if Sits(s, o, it) {
      SitsIsRead(s, o, it);
      it.Aligned();
      NextTagIsPlain(s, o);
    }
    if ReadItem(s, o) == Some(it) {
      ReadSits(s, o);
    }
  }

  // ----- blocks of items -----

  /** The offset of item `i` of a block. */
  ghost function Off(items: seq<Item>, i: nat): nat
    requires i <= |items|
  {
    if i == 0 then 0 else Off(items, i - 1) + items[i - 1].Size()
  }

  ghost predicate ItemSits(s: seq<byte>, items: seq<Item>, i: nat)
    requires i < |items|
  {
    SitsFrom(s, 0, items, i)
  }

  ghost predicate SitsFrom(s: seq<byte>, o: nat, items: seq<Item>, i: nat)
    requires i < |items|
  {
    Sits(s, o + Off(items, i), items[i])
  }

  /** The block holds the items one after the other, the end tag, and anything behind it. */
  ghost predicate Layout(s: seq<byte>, items: seq<Item>) {
    && |s| <= MAX_STRUCT
    && (forall i {:trigger ItemSits(s, items, i)} :: 0 <= i < |items| ==> ItemSits(s, items, i))
    && Off(items, |items|) + 4 <= |s|
    && U32(s, Off(items, |items|)) == FDT_END
  }

  lemma {:induction false} OffAligned(s: seq<byte>, items: seq<Item>, i: nat)
    requires Layout(s, items) && i <= |items|
    ensures Off(items, i) % 4 == 0 && Off(items, i) + 4 <= |s|
    ensures i < |items| ==> items[i].Ok() && Off(items, i + 1) == Off(items, i) + items[i].Size() >= Off(items, i) + 4
  {
    hide U32, Align, PadLen;
    if i < |items| {
      assert ItemSits(s, items, i);
      items[i].Aligned();
    }
    if i > 0 {
      OffAligned(s, items, i - 1);
      assert ItemSits(s, items, i - 1);
      items[i - 1].Aligned();
      Multiple4(Off(items, i - 1), items[i - 1].Size());
    }
  }

  lemma {:induction false} OffMonotone(s: seq<byte>, items: seq<Item>, i: nat, j: nat)
    requires Layout(s, items) && i <= j <= |items|
    ensures Off(items, i) + 4 * (j - i) <= Off(items, j)
    decreases j
  {
    if i < j {
      OffMonotone(s, items, i, j - 1);
      OffAligned(s, items, j - 1);
    }
  }

  /** Walking a block with `fdt_next_tag` visits its items in order and then FDT_END. */
  lemma WalkIsItems(s: seq<byte>, items: seq<Item>, i: nat)
    requires Layout(s, items) && i <= |items|
    ensures Off(items, i) + 4 <= |s| && Off(items, i) % 4 == 0
    ensures i < |items| ==> NextTag(s, Off(items, i)) == Tag(items[i].Tag(), Off(items, i + 1))
    ensures i == |items| ==> NextTag(s, Off(items, i)) == Tag(FDT_END, Off(items, i) + 4)
  {
    OffAligned(s, items, i);
    if i < |items| {
      assert ItemSits(s, items, i);
      ReadItemIffSits(s, Off(items, i), items[i]);
    } else {
      NextTagIsPlain(s, Off(items, i));
    }
  }

  lemma ReadAdvances(s: seq<byte>, o: nat)
    requires |s| <= MAX_STRUCT && o % 4 == 0 && ReadItem(s, o).Some?
    ensures var n := ReadItem(s, o).value.Size(); n >= 4 && (o + n) % 4 == 0 && o + n <= |s|
  {
    hide U32, ReadItem;
    ReadSits(s, o);
    ReadItem(s, o).value.Aligned();
    Multiple4(o, ReadItem(s, o).value.Size());
  }

  /** The items from `o` up to FDT_END; none if the block is not well formed. */
  function Parse(s: seq<byte>, o: nat): Option<seq<Item>>
    requires |s| <= MAX_STRUCT && o % 4 == 0
    decreases |s| - o
  {
    var t := PlainNextTag(s, o);
    if t.tag == FDT_END then
      if t.next >= 0 then Some([]) else None
    else
      var it := ReadItem(s, o);
      if it.None? then None
      else
        ReadAdvances(s, o);
        var rest := Parse(s, o + it.value.Size());
        if rest.None? then None else Some([it.value] + rest.value)
  }

  lemma {:induction false} LayoutParses(s: seq<byte>, items: seq<Item>, i: nat)
    requires Layout(s, items) && i <= |items| && Off(items, i) % 4 == 0
    ensures Parse(s, Off(items, i)) == Some(items[i..])
    decreases |items| - i
  {
    hide U32, ReadItem, Sits, Align, PadLen, Item.Ok, Item.Size;
    OffAligned(s, items, i);
    if i < |items| {
      assert ItemSits(s, items, i);
      SitsIsRead(s, Off(items, i), items[i]);
      OffAligned(s, items, i + 1);
      LayoutParses(s, items, i + 1);
      assert items[i..] == [items[i]] + items[i + 1..];
    } else {
      assert items[i..] == [];
      assert PlainNextTag(s, Off(items, i)).tag == FDT_END;
    }
  }

  /** `Layout` for items that start at offset `o`. */
  ghost predicate LayoutAt(s: seq<byte>, o: nat, items: seq<Item>) {
    && (forall i {:trigger SitsFrom(s, o, items, i)} :: 0 <= i < |items| ==> SitsFrom(s, o, items, i))
    && o + Off(items, |items|) + 4 <= |s|
    && U32(s, o + Off(items, |items|)) == FDT_END
  }

  lemma {:induction false} OffCons(it: Item, rest: seq<Item>, i: nat)
    requires i <= |rest|
    ensures Off([it] + rest, i + 1) == it.Size() + Off(rest, i)
  {
    if i > 0 {
      OffCons(it, rest, i - 1);
    }
  }

  lemma {:induction false} ParseLaysOut(s: seq<byte>, o: nat, items: seq<Item>)
    requires |s| <= MAX_STRUCT && o % 4 == 0 && Parse(s, o) == Some(items)
    ensures LayoutAt(s, o, items)
    decreases |items|
  {
    hide U32, ReadItem, Align, PadLen, Item.Ok, Item.Size;
    if items == [] {
      assert Off(items, 0) == 0;
    } else {
      var it, rest := ReadItem(s, o).value, items[1..];
      ReadSits(s, o);
      it.Aligned();
      Multiple4(o, it.Size());
      assert items == [it] + rest;
      ParseLaysOut(s, o + it.Size(), rest);
      LayoutCons(s, o, it, rest);
    }
  }

  lemma LayoutCons(s: seq<byte>, o: nat, it: Item, rest: seq<Item>)
    requires Sits(s, o, it) && LayoutAt(s, o + it.Size(), rest)
    ensures LayoutAt(s, o, [it] + rest)
  {
    hide U32, Sits, Item.Size;
    var items := [it] + rest;
    forall i | 0 <= i < |items| ensures SitsFrom(s, o, items, i) {
      if i > 0 {
        OffCons(it, rest, i - 1);
        assert SitsFrom(s, o + it.Size(), rest, i - 1);
      }
    }
    OffCons(it, rest, |rest|);
  }

  /** A block parses to a list of items exactly when it is laid out as those items. */
  lemma ParseIffLayout(s: seq<byte>, items: seq<Item>)
    requires |s| <= MAX_STRUCT
    ensures Parse(s, 0) == Some(items) <==> Layout(s, items)
  {
    if Layout(s, items) {
      LayoutParses(s, items, 0);
      assert items[0..] == items;
    }
    if Parse(s, 0) == Some(items) {
      ParseLaysOut(s, 0, items);
      forall i | 0 <= i < |items| ensures ItemSits(s, items, i) {
        assert SitsFrom(s, 0, items, i);
      }
    }
  }

  // ----- splicing -----

  lemma {:induction false} OffPrefix(a: seq<Item>, b: seq<Item>, k: nat)
    requires k <= |a|
    ensures Off(a + b, k) == Off(a, k)
  {
    if k > 0 {
      OffPrefix(a, b, k - 1);
    }
  }

  lemma {:induction false} OffSuffix(a: seq<Item>, b: seq<Item>, k: nat)
    requires k <= |b|
    ensures Off(a + b, |a| + k) == Off(a, |a|) + Off(b, k)
  {
    if k > 0 {
      OffSuffix(a, b, k - 1);
      assert (a + b)[|a| + k - 1] == b[k - 1];
    } else {
      OffPrefix(a, b, |a|);
    }
  }

  /** The items from `i` to `j` of `items` replaced by `mid`. */
  function Replace(items: seq<Item>, i: nat, j: nat, mid: seq<Item>): seq<Item>
    requires i <= j <= |items|
  {
    items[..i] + mid + items[j..]
  }

  lemma OffReplaceBefore(items: seq<Item>, i: nat, j: nat, mid: seq<Item>, k: nat)
    requires k <= i <= j <= |items|
    ensures Off(Replace(items, i, j, mid), k) == Off(items, k)
  {
    var a := items[..i];
    assert items == a + items[i..] && Replace(items, i, j, mid) == a + (mid + items[j..]);
    OffPrefix(a, mid + items[j..], k);
    OffPrefix(a, items[i..], k);
  }

  lemma OffReplaceInside(items: seq<Item>, i: nat, j: nat, mid: seq<Item>, k: nat)
    requires i <= j <= |items| && k <= |mid|
    ensures Off(Replace(items, i, j, mid), i + k) == Off(items, i) + Off(mid, k)
  {
    var a, b := items[..i], items[j..];
    assert items == a + items[i..] && Replace(items, i, j, mid) == a + (mid + b);
    OffSuffix(a, mid + b, k);
    OffPrefix(mid, b, k);
    OffPrefix(a, items[i..], i);
  }

  lemma OffReplaceAfter(items: seq<Item>, i: nat, j: nat, mid: seq<Item>, k: nat)
    requires i <= j <= k <= |items|
    ensures Off(Replace(items, i, j, mid), i + |mid| + (k - j)) == Off(items, i) + Off(mid, |mid|) + (Off(items, k) - Off(items, j))
  {
    var a, b := items[..i] + mid, items[j..];
    OffSuffix(a, b, k - j);
    assert Replace(items, i, j, mid) == a + b;
    assert items == items[..j] + b;
    OffSuffix(items[..j], b, k - j);
    OffSuffix(items[..j], b, 0);
    OffReplaceInside(items, i, j, mid, |mid|);
    OffPrefix(a, b, |a|);
  }

  /** The same `n` bytes at `o` of `s` and at `p` of `t`. */
  ghost predicate Same(s: seq<byte>, o: nat, t: seq<byte>, p: nat, n: nat) {
    o + n <= |s| && p + n <= |t| && s[o..o + n] == t[p..p + n]
  }

  /** A block cut in two and put together again with `n` bytes in place of those from `o` to `p`. */
  lemma SameEnds(s: seq<byte>, t: seq<byte>, o: nat, p: nat, n: nat)
    requires o <= p <= |s| && |t| == o + n + (|s| - p) && t[..o] == s[..o] && t[o + n..] == s[p..]
    ensures Same(s, 0, t, 0, o) && Same(s, p, t, o + n, |s| - p)
  {
    assert s[p..] == s[p..|s|] && t[o + n..] == t[o + n..|t|];
    assert s[0..o] == s[..o] && t[0..o] == t[..o];
  }

  lemma SamePart(s: seq<byte>, o: nat, t: seq<byte>, p: nat, n: nat, a: nat, m: nat)
    requires Same(s, o, t, p, n) && a + m <= n
    ensures Same(s, o + a, t, p + a, m)
  {
    SubSlice(s, o, t, p, n, a, a + m);
  }

  lemma SitsShifted(s: seq<byte>, t: seq<byte>, items: seq<Item>, m: nat, o: nat, p: nat, n: nat)
    requires Layout(s, items) && m < |items| && Same(s, o, t, p, n)
    requires o <= Off(items, m) && Off(items, m + 1) <= o + n
    ensures Sits(t, p + (Off(items, m) - o), items[m])
  {
    hide Sits, U32, Item.Size, Same;
    assert ItemSits(s, items, m) && Off(items, m + 1) == Off(items, m) + items[m].Size();
    hide Layout, Off;
    SamePart(s, o, t, p, n, Off(items, m) - o, items[m].Size());
    SameIs(s, Off(items, m), t, p + (Off(items, m) - o), items[m].Size());
    SitsMoved(s, Off(items, m), t, p + (Off(items, m) - o), items[m]);
  }

  lemma SameIs(s: seq<byte>, o: nat, t: seq<byte>, p: nat, n: nat)
    requires Same(s, o, t, p, n)
    ensures o + n <= |s| && p + n <= |t| && s[o..o + n] == t[p..p + n]
  {
  }

  /** What a splice does to the bytes of a block: those before item `i` and those from item `j` on
      stay, `n` bytes come between. */
  ghost predicate Spliced(s: seq<byte>, t: seq<byte>, items: seq<Item>, i: nat, j: nat, n: nat)
    requires i <= j <= |items|
  {
    var o, p := Off(items, i), Off(items, j);
    && o <= p <= |s| && |t| == o + n + (|s| - p)
    && Same(s, 0, t, 0, o) && Same(s, p, t, o + n, |s| - p)
  }

  /** Splicing the bytes of a block splices its items. */
  lemma SpliceLayout(s: seq<byte>, t: seq<byte>, items: seq<Item>, i: nat, j: nat, mid: seq<Item>)
    requires Layout(s, items) && i <= j <= |items| && |t| <= MAX_STRUCT
    requires Spliced(s, t, items, i, j, Off(mid, |mid|))
    requires forall k {:trigger SitsFrom(t, Off(items, i), mid, k)} :: 0 <= k < |mid| ==> SitsFrom(t, Off(items, i), mid, k)
    ensures Layout(t, Replace(items, i, j, mid))
  {
    hide Off, Sits, U32, Same;
    var r := Replace(items, i, j, mid);
    forall k | 0 <= k < |r| ensures ItemSits(t, r, k) {
      SplicedItem(s, t, items, i, j, mid, k);
    }
    SplicedEnd(s, t, items, i, j, mid);
  }

  lemma SplicedItem(s: seq<byte>, t: seq<byte>, items: seq<Item>, i: nat, j: nat, mid: seq<Item>, k: nat)
    requires Layout(s, items) && i <= j <= |items| && |t| <= MAX_STRUCT
    requires Spliced(s, t, items, i, j, Off(mid, |mid|))
    requires forall k {:trigger SitsFrom(t, Off(items, i), mid, k)} :: 0 <= k < |mid| ==> SitsFrom(t, Off(items, i), mid, k)
    requires k < |Replace(items, i, j, mid)|
    ensures ItemSits(t, Replace(items, i, j, mid), k)
  {
    hide Off, Sits, U32, Same, Layout;
    var r := Replace(items, i, j, mid);
    var o, p, n := Off(items, i), Off(items, j), Off(mid, |mid|);
    if k < i {
      OffReplaceBefore(items, i, j, mid, k);
      OffMonotone(s, items, k + 1, i);
      SitsShifted(s, t, items, k, 0, 0, o);
      assert r[k] == items[k];
    } else if k < i + |mid| {
      OffReplaceInside(items, i, j, mid, k - i);
      assert SitsFrom(t, o, mid, k - i);
      assert r[k] == mid[k - i];
    } else {
      var m := k - i - |mid| + j;
      OffReplaceAfter(items, i, j, mid, m);
      OffMonotone(s, items, j, m);
      OffAligned(s, items, m + 1);
      SitsShifted(s, t, items, m, p, o + n, |s| - p);
      assert r[k] == items[m];
    }
  }

  lemma MovedWord(s: seq<byte>, p: nat, t: seq<byte>, q: nat, n: nat, k: nat)
    requires Same(s, p, t, q, n) && k + 4 <= n
    ensures p + k + 4 <= |s| && q + k + 4 <= |t| && U32(t, q + k) == U32(s, p + k)
  {
    hide U32;
    SamePart(s, p, t, q, n, k, 4);
    U32Within(s, t, p + k, q + k);
  }

  lemma ReplaceLength(items: seq<Item>, i: nat, j: nat, mid: seq<Item>)
    requires i <= j <= |items|
    ensures |Replace(items, i, j, mid)| == i + |mid| + (|items| - j)
  {
  }

  lemma {:induction false} SplicedEnd(s: seq<byte>, t: seq<byte>, items: seq<Item>, i: nat, j: nat, mid: seq<Item>)
    requires Layout(s, items) && i <= j <= |items| && |t| <= MAX_STRUCT
    requires Spliced(s, t, items, i, j, Off(mid, |mid|))
    ensures var r := Replace(items, i, j, mid);
            Off(r, |r|) + 4 <= |t| && U32(t, Off(r, |r|)) == FDT_END
  {
    hide U32;
    hide Same, Replace;
    var o, p, n, e := Off(items, i), Off(items, j), Off(mid, |mid|), Off(items, |items|);
    OffReplaceAfter(items, i, j, mid, |items|);
    OffMonotone(s, items, j, |items|);
    ReplaceLength(items, i, j, mid);
    assert U32(s, e) == FDT_END && e + 4 <= |s|;
    hide Layout, Off;
    MovedWord(s, p, t, o + n, |s| - p, e - p);
  }

  /** One item in the place of items `i` to `j`. */
  lemma SingleLayout(s: seq<byte>, u: seq<byte>, items: seq<Item>, i: nat, j: nat, it: Item)
    requires Layout(s, items) && i <= j <= |items| && |u| <= MAX_STRUCT
    requires Spliced(s, u, items, i, j, it.Size()) && Sits(u, Off(items, i), it)
    ensures it.Ok() && Layout(u, Replace(items, i, j, [it]))
  {
    hide Layout, U32, Same;
    assert Off([it], 0) == 0 && Off([it], 1) == it.Size();
    forall k | 0 <= k < 1 ensures SitsFrom(u, Off(items, i), [it], k) {
    }
    SpliceLayout(s, u, items, i, j, [it]);
  }
}
