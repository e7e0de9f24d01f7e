/** Paths that start with an alias: `fdt_path_offset` looks it up among the properties of `/aliases` and
    follows what stands there first. */
module FdtAliases {
  import opened Wrappers
  import opened FdtFormat
  import opened FdtBlob
  import opened FdtWalk
  import opened FdtTraverse
  import opened FdtStrings
  import opened FdtRead
  import opened FdtPath

  /** `/aliases`. */
  const ALIASES: seq<byte> := [47, 97, 108, 105, 97, 115, 101, 115]

  /** Where a path leads: to a node, or to an error. */
  datatype Place = There(at: nat) | Nowhere(code: int)
  {
    ghost function Code(items: seq<Item>): int
      requires There? ==> at <= |items|
    {
      match this
      case There(at) => Off(items, at)
      case Nowhere(code) => code
    }
  }

  /** The property of `/aliases` with that name. */
  function AliasAt(items: seq<Item>, table: seq<byte>, name: seq<byte>): (r: Option<nat>)
    requires items != [] && items[0].Begin?
    ensures r.Some? ==> r.value < |items| && items[r.value].Prop?
  {
    var node := Walk(items, 0, ALIASES);
    if node.None? then None
    else
      match FindProp(items, node.value + 1, table, name)
      case At(j) => Some(j)
      case Absent => None
      case Unclosed => None
  }

  /** The C string that the value of the property at item `j` starts with. */
  ghost function ValueString(s: seq<byte>, items: seq<Item>, j: nat): seq<byte>
    requires j <= |items|
  {
    StringAt(s, Off(items, j) + 12)
  }

  /** Following the rest of a path from a place. */
  function Onwards(items: seq<Item>, place: Place, rest: seq<byte>): Place {
    if place.There? && place.at < |items| && items[place.at].Begin? then
      var w := Walk(items, place.at, rest);
      if w.Some? then There(w.value) else Nowhere(-FDT_ERR_NOTFOUND)
    else place
  }

  /** Where `fdt_path_offset` leads when it comes through no more than `n` aliases one after the other. */
  ghost function PathPlace(s: seq<byte>, items: seq<Item>, table: seq<byte>, path: seq<byte>, n: nat): (r: Option<Place>)
    requires items != [] && items[0].Begin?
    ensures r.Some? && r.value.There? ==> r.value.at < |items| && items[r.value.at].Begin?
    ensures r.Some? && r.value.Nowhere? ==> r.value.code in {-FDT_ERR_NOTFOUND, -FDT_ERR_BADPATH}
    decreases n
  {
    if path != [] && path[0] == SLASH then Some(Onwards(items, There(0), path))
    else
      var q := Component(path);
      var alias := AliasAt(items, table, path[..q]);
      if alias.None? then Some(Nowhere(-FDT_ERR_BADPATH))
      else if n == 0 then None
      else
        var r := PathPlace(s, items, table, ValueString(s, items, alias.value), n - 1);
        if r.None? then None else Some(Onwards(items, r.value, path[q..]))
  }

  /** Room for more aliases changes nothing. */
  lemma {:induction false} PathPlaceStays(s: seq<byte>, items: seq<Item>, table: seq<byte>, path: seq<byte>, n: nat, m: nat)
    requires items != [] && items[0].Begin? && n <= m && PathPlace(s, items, table, path, n).Some?
    ensures PathPlace(s, items, table, path, m) == PathPlace(s, items, table, path, n)
    decreases n
  {
    hide AliasAt, Onwards, ValueString, Walk;
    if !(path != [] && path[0] == SLASH) {
      var alias := AliasAt(items, table, path[..Component(path)]);
      if alias.Some? {
        PathPlaceStays(s, items, table, ValueString(s, items, alias.value), n - 1, m - 1);
      }
    }
  }

  /** An alias that stands for an absolute path may be replaced by it in the text of a path. */
  lemma AliasSubstitutes(s: seq<byte>, items: seq<Item>, table: seq<byte>, path: seq<byte>, n: nat)
    requires items != [] && items[0].Begin? && n > 0 && !(path != [] && path[0] == SLASH)
    requires AliasAt(items, table, path[..Component(path)]).Some?
    requires var v := ValueString(s, items, AliasAt(items, table, path[..Component(path)]).value); v != [] && v[0] == SLASH
    ensures var v := ValueString(s, items, AliasAt(items, table, path[..Component(path)]).value);
            var w := Walk(items, 0, v + path[Component(path)..]);
            PathPlace(s, items, table, path, n) == Some(if w.Some? then There(w.value) else Nowhere(-FDT_ERR_NOTFOUND))
  {
    hide AliasAt, ValueString, Walk;
    var q := Component(path);
    var v, rest := ValueString(s, items, AliasAt(items, table, path[..q]).value), path[q..];
    if rest == [] {
      assert v + rest == v;
      StaysThere(items);
    } else {
      assert rest == [SLASH] + rest[1..] && v + rest == v + [SLASH] + rest[1..];
      WalkSplit(items, 0, v, rest[1..]);
      SlashPassed(items, rest);
    }
  }

  lemma SlashPassed(items: seq<Item>, rest: seq<byte>)
    requires rest != [] && rest[0] == SLASH
    ensures forall k: nat :: k < |items| && items[k].Begin? ==> Walk(items, k, rest) == Walk(items, k, rest[1..])
  {
  }

  lemma StaysThere(items: seq<Item>)
    ensures forall k: nat :: k < |items| && items[k].Begin? ==> Walk(items, k, []) == Some(k)
  {
  }

  // ----- chains of aliases -----

  /** The alias that a path starts with. */
  function FirstAlias(items: seq<Item>, table: seq<byte>, path: seq<byte>): (r: Option<nat>)
    requires items != [] && items[0].Begin?
    ensures r.Some? ==> r.value < |items|
  {
    if path != [] && path[0] == SLASH then None else AliasAt(items, table, path[..Component(path)])
  }

  /** The alias reached after `k` others, each of which stands for a path that starts with the next. */
  ghost function AliasOn(s: seq<byte>, items: seq<Item>, table: seq<byte>, path: seq<byte>, k: nat): (r: Option<nat>)
    requires items != [] && items[0].Begin?
    ensures r.Some? ==> r.value < |items|
    decreases k
  {
    var alias := FirstAlias(items, table, path);
    if k == 0 || alias.None? then alias else AliasOn(s, items, table, ValueString(s, items, alias.value), k - 1)
  }

  /** No alias is reached twice. */
  ghost predicate NoneTwice(s: seq<byte>, items: seq<Item>, table: seq<byte>, path: seq<byte>)
    requires items != [] && items[0].Begin?
  {
    forall i, j {:trigger AliasOn(s, items, table, path, i), AliasOn(s, items, table, path, j)} ::
      0 <= i < j <= |items| && AliasOn(s, items, table, path, j).Some? ==>
        AliasOn(s, items, table, path, i) != AliasOn(s, items, table, path, j)
  }

  /** A path leads somewhere through `n` aliases at most, exactly when the chain is over after them. */
  lemma {:induction false} LeadsIffOver(s: seq<byte>, items: seq<Item>, table: seq<byte>, path: seq<byte>, n: nat)
    requires items != [] && items[0].Begin?
    ensures PathPlace(s, items, table, path, n).Some? <==> AliasOn(s, items, table, path, n).None?
    decreases n
  {
    hide AliasAt, Onwards, ValueString, Walk;
    var alias := FirstAlias(items, table, path);
    if alias.Some? && n > 0 {
      LeadsIffOver(s, items, table, ValueString(s, items, alias.value), n - 1);
    }
  }

  /** What follows an alias depends on that alias alone. */
  lemma {:induction false} AliasGoesOn(s: seq<byte>, items: seq<Item>, table: seq<byte>, path: seq<byte>, k: nat, m: nat)
    requires items != [] && items[0].Begin? && AliasOn(s, items, table, path, k).Some?
    ensures AliasOn(s, items, table, path, k + 1 + m) ==
            AliasOn(s, items, table, ValueString(s, items, AliasOn(s, items, table, path, k).value), m)
    decreases k
  {
    hide FirstAlias, ValueString;
    if k > 0 {
      AliasGoesOn(s, items, table, ValueString(s, items, FirstAlias(items, table, path).value), k - 1, m);
    }
  }

  /** A chain that is over stays over. */
  lemma {:induction false} OverStays(s: seq<byte>, items: seq<Item>, table: seq<byte>, path: seq<byte>, k: nat, m: nat)
    requires items != [] && items[0].Begin? && k <= m && AliasOn(s, items, table, path, m).Some?
    ensures AliasOn(s, items, table, path, k).Some?
    decreases k
  {
    hide FirstAlias, ValueString;
    if k > 0 {
      OverStays(s, items, table, ValueString(s, items, FirstAlias(items, table, path).value), k - 1, m - 1);
    }
  }

  /** A chain that comes to an alias a second time goes round for ever. */
  lemma {:induction false} RoundForEver(s: seq<byte>, items: seq<Item>, table: seq<byte>, path: seq<byte>, i: nat, j: nat, n: nat)
    requires items != [] && items[0].Begin? && i < j && AliasOn(s, items, table, path, j).Some?
    requires AliasOn(s, items, table, path, i) == AliasOn(s, items, table, path, j)
    ensures AliasOn(s, items, table, path, n).Some?
    decreases n
  {
    hide AliasOn;
    if n <= j {
      OverStays(s, items, table, path, n, j);
    } else {
      var m := n - j - 1;
      RoundForEver(s, items, table, path, i, j, i + 1 + m);
      AliasGoesOn(s, items, table, path, i, m);
      AliasGoesOn(s, items, table, path, j, m);
    }
  }

  /** The aliases reached first. */
  ghost function Reached(s: seq<byte>, items: seq<Item>, table: seq<byte>, path: seq<byte>, n: nat): (r: set<nat>)
    requires items != [] && items[0].Begin?
  {
    set k | 0 <= k < n && AliasOn(s, items, table, path, k).Some? :: AliasOn(s, items, table, path, k).value
  }

  lemma {:induction false} ReachedCount(s: seq<byte>, items: seq<Item>, table: seq<byte>, path: seq<byte>, n: nat)
    requires items != [] && items[0].Begin? && NoneTwice(s, items, table, path)
    requires n <= |items| + 1 && (n > 0 ==> AliasOn(s, items, table, path, n - 1).Some?)
    ensures |Reached(s, items, table, path, n)| == n
  {
    hide AliasOn;
    if n > 0 {
      var a := AliasOn(s, items, table, path, n - 1).value;
      if n > 1 {
        OverStays(s, items, table, path, n - 2, n - 1);
      }
      ReachedCount(s, items, table, path, n - 1);
      assert Reached(s, items, table, path, n) == Reached(s, items, table, path, n - 1) + {a};
    }
  }

  lemma {:induction false} Below(r: set<nat>, n: nat)
    requires forall x :: x in r ==> x < n
    ensures |r| <= n
  {
    if n == 0 {
      assert r == {};
    } else {
      Below(r - {n - 1}, n - 1);
    }
  }

  /** `fdt_path_offset` returns, through however many aliases, if and only if none of them is reached
      twice; that is, if and only if it returns through no more of them than there are items. */
  lemma ReturnsIffNoneTwice(s: seq<byte>, items: seq<Item>, table: seq<byte>, path: seq<byte>)
    requires items != [] && items[0].Begin?
    ensures (exists n :: PathPlace(s, items, table, path, n).Some?) <==> NoneTwice(s, items, table, path)
    ensures PathPlace(s, items, table, path, |items|).Some? <==> NoneTwice(s, items, table, path)
  {
    hide AliasOn, PathPlace;
    var n := |items|;
    LeadsIffOver(s, items, table, path, n);
    if NoneTwice(s, items, table, path) {
      if AliasOn(s, items, table, path, n).Some? {
        ReachedCount(s, items, table, path, n + 1);
        Below(Reached(s, items, table, path, n + 1), n);
      }
    } else {
      var i, j :| 0 <= i < j <= n && AliasOn(s, items, table, path, j).Some?
                  && AliasOn(s, items, table, path, i) == AliasOn(s, items, table, path, j);
      forall m: nat ensures PathPlace(s, items, table, path, m).None? {
        RoundForEver(s, items, table, path, i, j, m);
        LeadsIffOver(s, items, table, path, m);
      }
    }
  }

  /** A path whose alias stands for itself, or for a path that starts with it, is followed for ever. */
  lemma AliasForItself(s: seq<byte>, items: seq<Item>, table: seq<byte>, path: seq<byte>, n: nat)
    requires items != [] && items[0].Begin? && FirstAlias(items, table, path).Some?
    requires var x := FirstAlias(items, table, path); FirstAlias(items, table, ValueString(s, items, x.value)) == x
    ensures PathPlace(s, items, table, path, n).None?
  {
    hide FirstAlias, ValueString, PathPlace;
    RoundForEver(s, items, table, path, 0, 1, n);
    LeadsIffOver(s, items, table, path, n);
  }

  // ----- reading an alias -----

  /** A value is followed by a zero byte: its padding has one, or the tag behind it. */
  lemma {:induction false} ValueEnds(s: seq<byte>, items: seq<Item>, j: nat)
    requires Layout(s, items) && j < |items| && items[j].Prop?
    ensures Off(items, j) + 12 <= |s| && Terminated(s, Off(items, j) + 12)
    ensures 0 !in ValueString(s, items, j) && |ValueString(s, items, j)| <= MAX_STRUCT
  {
    PropWords(s, items, j);
    OffAligned(s, items, j);
    OffAligned(s, items, j + 1);
    var o, p := Off(items, j) + 12, Off(items, j + 1);
    assert U32(s, p) <= FDT_END by {
      if j + 1 < |items| {
        assert ItemSits(s, items, j + 1);
      }
    }
    SmallWord(s, p);
    assert items[j].Size() >= 12;
    var e := NameEnd(s, o);
    assert s[p] == 0 && o <= p < |s|;
    assert e <= p;
  }

  lemma SmallWord(s: seq<byte>, o: nat)
    requires o + 4 <= |s| && U32(s, o) < 0x100_0000
    ensures s[o] == 0
  {
  }

  /** `fdt_get_alias_namelen`: where the value of the alias starts, or a negative number. */
  method GetAlias(fdt: Blob, name: seq<byte>, ghost items: seq<Item>) returns (p: int)
    requires HoldsNamed(fdt, items) && items != [] && items[0].Begin?
    ensures p >= 0 <==> AliasAt(items, fdt.Strings(), name).Some?
    ensures p >= 0 ==> p == Off(items, AliasAt(items, fdt.Strings(), name).value) + 12
  {
    hide Layout, Off, NamesOk, Walk, FindProp, StringAt, Terminated;
    var aliasoffset := AbsoluteOffset(fdt, ALIASES, items);
    ghost var node := Walk(items, 0, ALIASES);
    if node.Some? {
      OffNonNegative(items, node.value);
    }
    if aliasoffset < 0 {
      return -1;
    }
    var prop, len := GetProperty(fdt, aliasoffset, name, items, node.value);
    if prop < 0 {
      return -1;
    }
    return prop + 12;
  }

  /** `fdt_path_offset` of any path, when the tree has a root and no alias is reached twice. */
  method PathOffset(fdt: Blob, path: seq<byte>, ghost items: seq<Item>) returns (r: int)
    requires HoldsNamed(fdt, items) && items != [] && items[0].Begin? && 0 !in path && |path| <= MAX_STRUCT
    requires NoneTwice(fdt.Struct(), items, fdt.Strings(), path)
    ensures var place := PathPlace(fdt.Struct(), items, fdt.Strings(), path, |items|);
            place.Some? && r == place.value.Code(items)
  {
    hide Layout, Off, NamesOk, PathPlace, NoneTwice;
    ReturnsIffNoneTwice(fdt.Struct(), items, fdt.Strings(), path);
    r := OffsetWithin(fdt, path, items, |items|);
  }

  /** The recursion of `fdt_path_offset`, with a bound on the aliases still to come. */
  method OffsetWithin(fdt: Blob, path: seq<byte>, ghost items: seq<Item>, ghost n: nat) returns (r: int)
    requires HoldsNamed(fdt, items) && items != [] && items[0].Begin? && 0 !in path && |path| <= MAX_STRUCT
    requires PathPlace(fdt.Struct(), items, fdt.Strings(), path, n).Some?
    ensures r == PathPlace(fdt.Struct(), items, fdt.Strings(), path, n).value.Code(items)
    decreases n
  {
    hide Layout, Off, NamesOk, Walk, AliasAt, ValueString, PathPlace, Onwards, U32, Denotes, Place.Code, ChildCode;
    hide Blob.Struct, Blob.Strings;
    ghost var s, table := fdt.Struct(), fdt.Strings();
    PlaceByCase(s, items, table, path, n);
    OffZero(items);
    if path != [] && path[0] == SLASH {
      PlaceStands(s, items, There(0));
      CodeOf(items, There(0));
      OnwardsCode(items, There(0), path);
      assert path[0..] == path;
      r := FollowFrom(fdt, 0, path, 0, items, 0);
    } else {
      assert path[0..] == path;
      var q := NextSlash(path, 0);
      var value := GetAlias(fdt, path[..q], items);
      if value < 0 {
        CodeOf(items, Nowhere(-FDT_ERR_BADPATH));
        return -FDT_ERR_BADPATH;
      }
      var text := ReadString(fdt, value, items, AliasAt(items, table, path[..q]).value);
      var offset := OffsetWithin(fdt, text, items, n - 1);
      ghost var place := PathPlace(s, items, table, text, n - 1).value;
      PlaceStands(s, items, place);
      CodeOf(items, place);
      OnwardsCode(items, place, path[q..]);
      r := FollowFrom(fdt, offset, path, q, items, if place.There? then place.at else 0);
    }
  }

  /** What the definition says of a path that leads somewhere. */
  lemma PlaceByCase(s: seq<byte>, items: seq<Item>, table: seq<byte>, path: seq<byte>, n: nat)
    requires items != [] && items[0].Begin? && PathPlace(s, items, table, path, n).Some?
    ensures var place, q := PathPlace(s, items, table, path, n), Component(path);
            if path != [] && path[0] == SLASH then place == Some(Onwards(items, There(0), path))
            else if AliasAt(items, table, path[..q]).None? then place == Some(Nowhere(-FDT_ERR_BADPATH))
            else
              && n > 0
              && var first := PathPlace(s, items, table, ValueString(s, items, AliasAt(items, table, path[..q]).value), n - 1);
                 first.Some? && place == Some(Onwards(items, first.value, path[q..]))
  {
    hide Onwards, AliasAt, ValueString;
  }

  lemma OnwardsCode(items: seq<Item>, place: Place, rest: seq<byte>)
    requires place.There? ==> place.at < |items| && items[place.at].Begin?
    ensures Onwards(items, place, rest).There? ==> Onwards(items, place, rest).at < |items|
    ensures Onwards(items, place, rest).Code(items) == if place.There? then ChildCode(items, Walk(items, place.at, rest)) else place.code
  {
    hide Walk, Off;
  }

  lemma CodeOf(items: seq<Item>, place: Place)
    requires place.There? ==> place.at <= |items|
    ensures place.Code(items) == if place.There? then Off(items, place.at) else place.code
  {
    hide Off;
  }

  /** A place is denoted by its offset or its error. */
  lemma PlaceStands(s: seq<byte>, items: seq<Item>, place: Place)
    requires place.There? ==> place.at < |items|
    requires place.Nowhere? ==> place.code in {-FDT_ERR_NOTFOUND, -FDT_ERR_BADPATH}
    ensures place.There? ==> place.Code(items) >= 0 && Denotes(items, place.Code(items), place.at)
    ensures place.Nowhere? ==> place.Code(items) < 0 && Denotes(items, place.Code(items), 0)
  {
    if place.There? {
      OffNonNegative(items, place.at);
    }
  }

  /** The C string at the start of a property's value. */
  method ReadString(fdt: Blob, o: nat, ghost items: seq<Item>, ghost j: nat) returns (text: seq<byte>)
    requires Holds(fdt, items) && j < |items| && items[j].Prop? && o == Off(items, j) + 12
    ensures text == ValueString(fdt.Struct(), items, j) && 0 !in text && |text| <= MAX_STRUCT
  {
    hide Layout, Off, U32;
    ValueEnds(fdt.Struct(), items, j);
    var found, behind := SkipName(fdt, o);
    SliceOfSlice(fdt.buf[..], fdt.off_dt_struct, fdt.off_dt_struct + fdt.size_dt_struct, o, behind - 1);
    text := fdt.buf[fdt.off_dt_struct + o..fdt.off_dt_struct + behind - 1];
    assert text == fdt.Struct()[o..behind - 1];
  }

  // ----- an example -----

  /** A root with the one child `aliases`, which has the one property `a` with the value "a". */
  function SelfItems(): seq<Item> {
    [Begin([], [0, 0, 0]), Begin(ALIASES[1..], []), Prop(0, [LETTER_A, 0], [0, 0]), EndNode, EndNode]
  }

  /** The bytes of the two nodes' tags and of the property. */
  const ROOT_BYTES: seq<byte> := [0, 0, 0, 1, 0, 0, 0, 0]
  const NODE_BYTES: seq<byte> := [0, 0, 0, 1, 97, 108, 105, 97, 115, 101, 115, 0]
  const ALIAS_BYTES: seq<byte> := [0, 0, 0, 3, 0, 0, 0, 2, 0, 0, 0, 0, 97, 0, 0, 0]
  const END_BYTES: seq<byte> := [0, 0, 0, 2, 0, 0, 0, 2, 0, 0, 0, 9]

  /** Its structure block. */
  function SelfBlock(): (s: seq<byte>)
    ensures |s| == 48
  {
    ROOT_BYTES + NODE_BYTES + ALIAS_BYTES + END_BYTES
  }

  lemma SelfParts()
    ensures var s := SelfBlock();
            s[0..8] == ROOT_BYTES && s[8..20] == NODE_BYTES && s[20..36] == ALIAS_BYTES && s[36..48] == END_BYTES
  {
  }

  /** Its strings block. */
  function SelfTable(): seq<byte> {
    [LETTER_A, 0]
  }

  lemma SelfOffsets()
    ensures var items := SelfItems();
            && Off(items, 0) == 0 && Off(items, 1) == 8 && Off(items, 2) == 20 && Off(items, 3) == 36
            && Off(items, 4) == 40 && Off(items, 5) == 44
  {
    var items := SelfItems();
    assert Off(items, 1) == 8;
    assert Off(items, 2) == 20;
    assert Off(items, 3) == 36;
    assert Off(items, 4) == 40;
  }

  lemma SelfNodes()
    ensures Sits(SelfBlock(), 0, SelfItems()[0]) && Sits(SelfBlock(), 8, SelfItems()[1])
  {
    RootSits();
    NodeSits();
    SelfParts();
    var s := SelfBlock();
    hide SelfBlock, Sits, U32, U16;
    assert ROOT_BYTES[0..8] == ROOT_BYTES && NODE_BYTES[0..12] == NODE_BYTES;
    SitsMoved(ROOT_BYTES, 0, s, 0, SelfItems()[0]);
    SitsMoved(NODE_BYTES, 0, s, 8, SelfItems()[1]);
  }

  lemma RootSits()
    ensures Sits(ROOT_BYTES, 0, SelfItems()[0])
  {
    assert U32(ROOT_BYTES, 0) == 1;
    hide U32;
    assert ROOT_BYTES[4..4] == [] && ROOT_BYTES[5..8] == [0, 0, 0];
  }

  lemma NodeSits()
    ensures Sits(NODE_BYTES, 0, SelfItems()[1])
  {
    assert U32(NODE_BYTES, 0) == 1;
    hide U32;
    assert NODE_BYTES[4..11] == ALIASES[1..] && NODE_BYTES[12..12] == [];
  }

  lemma AliasSits()
    ensures Sits(ALIAS_BYTES, 0, SelfItems()[2])
  {
    AliasWords();
    hide U32;
    var s := ALIAS_BYTES;
    assert s[12..14] == [LETTER_A, 0] && s[14..16] == [0, 0];
  }

  lemma AliasWords()
    ensures U32(ALIAS_BYTES, 0) == 3 && U32(ALIAS_BYTES, 4) == 2 && U32(ALIAS_BYTES, 8) == 0
  {
  }

  lemma SelfProperty()
    ensures Sits(SelfBlock(), 20, SelfItems()[2])
  {
    AliasSits();
    SelfParts();
    var s := SelfBlock();
    hide SelfBlock, Sits, U32, U16;
    assert ALIAS_BYTES[0..16] == ALIAS_BYTES;
    SitsMoved(ALIAS_BYTES, 0, s, 20, SelfItems()[2]);
  }

  lemma SelfEnds()
    ensures Sits(SelfBlock(), 36, EndNode) && Sits(SelfBlock(), 40, EndNode) && U32(SelfBlock(), 44) == FDT_END
  {
    SelfParts();
    var s := SelfBlock();
    hide SelfBlock;
    assert U32(END_BYTES, 0) == 2 && U32(END_BYTES, 4) == 2 && U32(END_BYTES, 8) == 9;
    hide U32;
    EndWord(s, 0);
    EndWord(s, 4);
    EndWord(s, 8);
  }

  lemma EndWord(s: seq<byte>, k: nat)
    requires |s| == 48 && s[36..48] == END_BYTES && k + 4 <= 12
    ensures U32(s, 36 + k) == U32(END_BYTES, k)
  {
    SliceOfSlice(s, 36, 48, k, k + 4);
    U32Within(s, END_BYTES, 36 + k, k);
  }

  lemma SelfLaidOut()
    ensures Layout(SelfBlock(), SelfItems()) && NamesOk(SelfItems(), SelfTable())
  {
    SelfOffsets();
    SelfNodes();
    SelfProperty();
    SelfEnds();
    var s, items := SelfBlock(), SelfItems();
    hide Off, Sits, SelfBlock, U32;
    forall i | 0 <= i < |items| ensures ItemSits(s, items, i) {
    }
    SelfName();
  }

  /** The property's name. */
  lemma SelfName()
    ensures Terminated(SelfTable(), 0) && StringAt(SelfTable(), 0) == [LETTER_A]
  {
    var table := SelfTable();
    assert NameEnd(table, 1) == 1;
    assert table[0..1] == [LETTER_A];
  }

  lemma SelfChild()
    ensures SelfItems() != [] && SelfItems()[0].Begin? && ChildNamed(SelfItems(), 1, 0, ALIASES[1..]) == Some(1)
  {
  }

  lemma SelfAliasesNode()
    ensures Walk(SelfItems(), 0, ALIASES) == Some(1)
  {
    var items, name := SelfItems(), ALIASES[1..];
    hide Walk;
    assert ALIASES == [] + [SLASH] + name;
    SelfChild();
    hide ChildNamed, SelfItems, NameMatches;
    WalkNothing(items);
    WalkSplit(items, 0, [], name);
    WalkName(items, 0, name);
  }

  /** The alias `a` is found. */
  lemma SelfAlias()
    ensures FirstAlias(SelfItems(), SelfTable(), [LETTER_A]) == Some(2)
  {
    SelfAliasesNode();
    SelfName();
    var path := [LETTER_A];
    assert Component(path[1..]) == 0 && path[..1] == path;
    hide Walk, StringAt, SelfTable;
    assert FindProp(SelfItems(), 2, SelfTable(), path) == At(2);
  }

  /** It stands for `a`. */
  lemma SelfValue()
    ensures ValueString(SelfBlock(), SelfItems(), 2) == [LETTER_A]
  {
    SelfOffsets();
    var s := SelfBlock();
    hide Off;
    assert s[32] == LETTER_A && s[33] == 0;
    assert NameEnd(s, 33) == 33;
    assert s[32..33] == [LETTER_A];
  }

  /** The path "a" does not lead anywhere in this blob, through however many aliases. */
  lemma SelfForEver(n: nat)
    ensures Layout(SelfBlock(), SelfItems()) && NamesOk(SelfItems(), SelfTable())
    ensures PathPlace(SelfBlock(), SelfItems(), SelfTable(), [LETTER_A], n).None?
    ensures !NoneTwice(SelfBlock(), SelfItems(), SelfTable(), [LETTER_A])
  {
    SelfLaidOut();
    SelfAlias();
    SelfValue();
    hide Layout, NamesOk, FirstAlias, ValueString, PathPlace, NoneTwice, SelfBlock, SelfTable;
    AliasForItself(SelfBlock(), SelfItems(), SelfTable(), [LETTER_A], n);
    AliasForItself(SelfBlock(), SelfItems(), SelfTable(), [LETTER_A], |SelfItems()|);
    ReturnsIffNoneTwice(SelfBlock(), SelfItems(), SelfTable(), [LETTER_A]);
  }
}
