/** The strings block, and the meaning of a structure block once property names are looked up. */
module FdtStrings {
  import opened Wrappers
  import opened FdtFormat

  /** A NUL follows at or after `o`, inside the table. */
  predicate Terminated(table: seq<byte>, o: nat) {
    o < |table| && NameEnd(table, o) < |table|
  }

  /** The C string at `o`. */
  function StringAt(table: seq<byte>, o: nat): seq<byte> {
    if o <= |table| then table[o..NameEnd(table, o)] else []
  }

  /** Every property's name is a string of the table. */
  ghost predicate NamesOk(items: seq<Item>, table: seq<byte>) {
    forall i :: 0 <= i < |items| && items[i].Prop? ==> Terminated(table, items[i].nameoff)
  }

  /** A tag of the tree with the data a client sees. */
  datatype Token = BeginNode(name: seq<byte>) | Property(name: seq<byte>, value: seq<byte>) | EndOfNode

  function TokenOf(it: Item, table: seq<byte>): seq<Token> {
    match it
    case Begin(name, _) => [BeginNode(name)]
    case Prop(nameoff, value, _) => [Property(StringAt(table, nameoff), value)]
    case EndNode => [EndOfNode]
    case Nop => []
  }

  /** What a structure block says: its tags in order, NOPs and padding dropped, names looked up. */
  function Meaning(items: seq<Item>, table: seq<byte>): seq<Token> {
    if items == [] then [] else TokenOf(items[0], table) + Meaning(items[1..], table)
  }

  /** The items are the tags, one for one: no NOP among them. */
  ghost predicate Spells(items: seq<Item>, tokens: seq<Token>, table: seq<byte>) {
    && |items| == |tokens|
    && forall i {:trigger items[i]} {:trigger tokens[i]} :: 0 <= i < |items| ==> TokenOf(items[i], table) == [tokens[i]]
  }

  /** And then they mean them. */
  lemma {:induction false} SpellsMeans(items: seq<Item>, tokens: seq<Token>, table: seq<byte>)
    requires Spells(items, tokens, table)
    ensures Meaning(items, table) == tokens
  {
    hide TokenOf;
    if items != [] {
      SpellsMeans(items[1..], tokens[1..], table);
      assert tokens == [tokens[0]] + tokens[1..];
    }
  }

  lemma {:induction false} MeaningAppend(a: seq<Item>, b: seq<Item>, table: seq<byte>)
    ensures Meaning(a + b, table) == Meaning(a, table) + Meaning(b, table)
  {
    hide StringAt, TokenOf;
    if a == [] {
      assert a + b == b;
    } else {
      MeaningAppend(a[1..], b, table);
      assert (a + b)[1..] == a[1..] + b;
      assert Meaning(a + b, table) == TokenOf(a[0], table) + Meaning(a[1..] + b, table);
    }
  }

  lemma MeaningReplace(items: seq<Item>, i: nat, j: nat, mid: seq<Item>, table: seq<byte>)
    requires i <= j <= |items|
    ensures Meaning(Replace(items, i, j, mid), table) ==
            Meaning(items[..i], table) + Meaning(mid, table) + Meaning(items[j..], table)
    ensures Meaning(items, table) ==
            Meaning(items[..i], table) + Meaning(items[i..j], table) + Meaning(items[j..], table)
  {
    hide Meaning;
    MeaningAppend(items[..i] + mid, items[j..], table);
    MeaningAppend(items[..i], mid, table);
    MeaningAppend(items[..j], items[j..], table);
    MeaningAppend(items[..i], items[i..j], table);
    assert items[..j] == items[..i] + items[i..j] && items == items[..j] + items[j..];
  }

  // ----- growing the table -----

  lemma StringKept(table: seq<byte>, more: seq<byte>, o: nat)
    requires Terminated(table, o)
    ensures Terminated(table + more, o) && StringAt(table + more, o) == StringAt(table, o)
  {
    var e, e' := NameEnd(table, o), NameEnd(table + more, o);
    assert (table + more)[e] == 0;
    assert forall j :: o <= j < e ==> (table + more)[j] == table[j];
  }

  /** Appending to the table changes no meaning. */
  lemma {:induction false} MeaningKept(items: seq<Item>, table: seq<byte>, more: seq<byte>)
    requires NamesOk(items, table)
    ensures NamesOk(items, table + more) && Meaning(items, table + more) == Meaning(items, table)
  {
    forall i | 0 <= i < |items| && items[i].Prop? ensures Terminated(table + more, items[i].nameoff) {
      StringKept(table, more, items[i].nameoff);
    }
    if items != [] {
      if items[0].Prop? {
        StringKept(table, more, items[0].nameoff);
      }
      MeaningKept(items[1..], table, more);
    }
  }

  // ----- looking strings up -----

  /** The bytes of a C string with its NUL. */
  function CString(name: seq<byte>): seq<byte> {
    name + [0]
  }

  /** The string and its NUL stand at `q`. */
  ghost predicate StandsAt(table: seq<byte>, name: seq<byte>, q: nat) {
    q + |name| + 1 <= |table| && table[q..q + |name| + 1] == CString(name)
  }

  /** They stand somewhere. */
  ghost predicate Stands(table: seq<byte>, name: seq<byte>) {
    exists q: nat :: StandsAt(table, name, q)
  }

  /** They still do when more is put in front. */
  lemma StandsBehind(table: seq<byte>, more: seq<byte>, name: seq<byte>)
    requires Stands(table, name)
    ensures Stands(more + table, name)
  {
    var q: nat :| StandsAt(table, name, q);
    var t, n := more + table, |name| + 1;
    assert t[|more| + q..|more| + q + n] == table[q..q + n];
    assert StandsAt(t, name, |more| + q);
  }

  lemma StandsInFront(table: seq<byte>, name: seq<byte>)
    ensures Stands(CString(name) + table, name)
  {
    assert (CString(name) + table)[0..0 + |name| + 1] == CString(name);
    assert StandsAt(CString(name) + table, name, 0);
  }

  /** Where the string and its NUL stand, the string is read. */
  lemma FoundIsString(table: seq<byte>, name: seq<byte>, p: nat)
    requires 0 !in name && p + |name| + 1 <= |table| && table[p..p + |name| + 1] == CString(name)
    ensures Terminated(table, p) && StringAt(table, p) == name
  {
    var w := table[p..p + |name| + 1];
    assert table[p + |name|] == w[|name|] == 0;
    assert table[p..p + |name|] == w[..|name|] == name;
    forall j | p <= j < p + |name| ensures table[j] != 0 {
      assert table[j] == name[j - p];
    }
    assert NameEnd(table, p) == p + |name|;
  }

  // ----- looking properties up -----

  /** The outcome of a search among a node's properties. */
  datatype PropSearch = At(at: nat) | Absent | Unclosed

  /** The search of `fdt_get_property` from item `k` on: it ends at the first tag that is neither a
      property nor a NOP. */
  function FindProp(items: seq<Item>, k: nat, table: seq<byte>, name: seq<byte>): (r: PropSearch)
    requires k <= |items|
    ensures r.At? ==> k <= r.at < |items| && items[r.at].Prop? && StringAt(table, items[r.at].nameoff) == name
    decreases |items| - k
  {
    if k == |items| then Unclosed
    else match items[k]
      case Prop(nameoff, _, _) =>
        if StringAt(table, nameoff) == name then At(k) else FindProp(items, k + 1, table, name)
      case Nop => FindProp(items, k + 1, table, name)
      case Begin(_, _) => Absent
      case EndNode => Absent
  }

  /** It is the node's first property of that name that is found, among properties and NOPs only. */
  lemma {:induction false} FindPropIsFirst(items: seq<Item>, k: nat, table: seq<byte>, name: seq<byte>)
    requires k <= |items|
    ensures var r := FindProp(items, k, table, name);
            r.At? ==> forall m :: k <= m < r.at ==>
                        items[m].Nop? || (items[m].Prop? && StringAt(table, items[m].nameoff) != name)
    decreases |items| - k
  {
    hide StringAt;
    if k < |items| {
      FindPropIsFirst(items, k + 1, table, name);
    }
  }

  /** From item `k` up to item `p` there are only NOPs and properties of other names. */
  ghost predicate NoneNamed(items: seq<Item>, k: nat, p: nat, table: seq<byte>, name: seq<byte>) {
    && k <= p <= |items|
    && forall m :: k <= m < p ==> items[m].Nop? || (items[m].Prop? && StringAt(table, items[m].nameoff) != name)
  }

  /** What is found is the first property of that name, with only NOPs and properties of other names
      before it. None is there when a node or an end tag comes before any of that name; and the search
      comes to the end of the items exactly when they are all NOPs and properties of other names. */
  lemma {:induction false} FindPropIs(items: seq<Item>, k: nat, table: seq<byte>, name: seq<byte>)
    requires k <= |items|
    ensures var r := FindProp(items, k, table, name);
            && (r.At? ==> NoneNamed(items, k, r.at, table, name) && items[r.at].Prop? && StringAt(table, items[r.at].nameoff) == name)
            && (r.Absent? <==> exists p :: k <= p < |items| && NoneNamed(items, k, p, table, name) && (items[p].Begin? || items[p].EndNode?))
            && (r.Unclosed? <==> NoneNamed(items, k, |items|, table, name))
    decreases |items| - k
  {
    hide StringAt;
    if k < |items| && NoneNamed(items, k, k + 1, table, name) {
      FindPropIs(items, k + 1, table, name);
      forall p | k < p <= |items| ensures NoneNamed(items, k, p, table, name) <==> NoneNamed(items, k + 1, p, table, name) {
      }
    } else if k < |items| {
      assert NoneNamed(items, k, k, table, name);
    }
  }

  lemma {:induction false} FindPropKept(items: seq<Item>, k: nat, table: seq<byte>, more: seq<byte>, name: seq<byte>)
    requires k <= |items| && NamesOk(items, table)
    ensures FindProp(items, k, table + more, name) == FindProp(items, k, table, name)
    decreases |items| - k
  {
    if k < |items| {
      if items[k].Prop? {
        StringKept(table, more, items[k].nameoff);
      }
      FindPropKept(items, k + 1, table, more, name);
    }
  }
}
