/** What clients may conclude from the edits: trees grafted in one place, reads that see what was
    written and nothing else. */
module FdtLaws {
  import opened Wrappers
  import opened FdtFormat
  import opened FdtBlob
  import opened FdtTraverse
  import opened FdtStrings
  import opened FdtRead
  import opened FdtWrite
  import opened FdtTree
  import opened FdtEdit
  import opened FdtTreeEdit

  // ----- small forests -----

  lemma NoLeaf(items: seq<Item>, i: nat)
    requires i <= |items|
    ensures Spans(items, i, Empty) && Empty.Len() == 0 && Flat(Empty) == [] && Proper(Empty)
  {
  }

  lemma OneLeaf(items: seq<Item>, i: nat)
    requires i < |items| && (items[i].Prop? || items[i].Nop?)
    ensures Spans(items, i, Leaf(items[i], Empty)) && Leaf(items[i], Empty).Len() == 1
  {
  }

  lemma FlatLeaf(it: Item)
    requires it.Prop? || it.Nop?
    ensures Flat(Leaf(it, Empty)) == [it] && Proper(Leaf(it, Empty))
  {
  }

  lemma FlatEmptyNode(b: Item)
    requires b.Begin?
    ensures Flat(Node(b, Empty, Empty)) == [b, EndNode] && Proper(Node(b, Empty, Empty))
  {
    assert Flat(Node(b, Empty, Empty)) == [b] + [] + [EndNode] + [];
  }

  lemma {:induction false} NodeLen(b: Item, g: Forest)
    ensures Node(b, g, Empty).Len() == 2 + g.Len()
  {
  }

  // ----- setting a property -----

  /** The items from `at + 1` to the place where the property is set belong to the node itself. */
  lemma {:induction false} SetPlace(items: seq<Item>, root: nat, f: Forest, at: nat, table: seq<byte>, name: seq<byte>)
    requires IsNode(items, root, f) && root <= at < root + 1 + f.Len() && items[at].Begin?
    ensures var i, j := SetFrom(items, at, table, name), SetTo(items, at, table, name);
            at < i <= j <= i + 1 && j <= |items| && i <= root + 1 + f.Len()
            && (j == i + 1 ==> i < |items| && items[i].Prop?)
  {
    hide StringAt;
    FindPropIsFirst(items, at + 1, table, name);
  }

  /** `fdt_setprop` grafts one leaf into the tree, in the place of the node's property of that name or
      in front of all its properties; no other node, name or value of the tree changes. */
  lemma {:induction false} SetGrafts(items: seq<Item>, root: nat, f: Forest, at: nat, table: seq<byte>, name: seq<byte>, it: Item)
    requires IsNode(items, root, f) && root <= at < root + 1 + f.Len() && items[at].Begin? && it.Prop?
    ensures var i, j := SetFrom(items, at, table, name), SetTo(items, at, table, name);
            && root < i <= j <= |items| && Fits(f, i - (root + 1), j - i)
            && IsNode(Replace(items, i, j, [it]), root, Graft(f, i - (root + 1), j - i, Leaf(it, Empty)))
  {
    SetPlace(items, root, f, at, table, name);
    var i, j := SetFrom(items, at, table, name), SetTo(items, at, table, name);
    hide IsNode, SetFrom, SetTo, Spans, Flat, Proper, Forest.Len, Graft, Fits;
    var m := Empty;
    if j == i {
      NoLeaf(items, i);
    } else {
      m := Leaf(items[i], Empty);
      OneLeaf(items, i);
    }
    FlatLeaf(it);
    EditGrafts(items, root, f, i, m, Leaf(it, Empty));
  }

  /** `fdt_delprop` cuts one leaf out of the tree. */
  lemma {:induction false} DelPropGrafts(items: seq<Item>, root: nat, f: Forest, j: nat)
    requires IsNode(items, root, f) && root < j < root + 1 + f.Len() && (items[j].Prop? || items[j].Nop?)
    ensures Fits(f, j - (root + 1), 1)
    ensures IsNode(Replace(items, j, j + 1, []), root, Graft(f, j - (root + 1), 1, Empty))
  {
    var m := Leaf(items[j], Empty);
    hide IsNode, Spans, Flat, Proper, Forest.Len, Graft, Fits;
    OneLeaf(items, j);
    NoLeaf(items, j);
    EditGrafts(items, root, f, j, m, Empty);
  }

  /** `fdt_add_subnode` grafts an empty node into the tree, behind the parent's properties. */
  lemma {:induction false} AddGrafts(items: seq<Item>, root: nat, f: Forest, at: nat, name: seq<byte>)
    requires IsNode(items, root, f) && root <= at < root + 1 + f.Len() && items[at].Begin?
    ensures var k := PropsEnd(items, at + 1);
            && at < k <= root + 1 + f.Len() && k <= |items| && Fits(f, k - (root + 1), 0)
            && IsNode(Replace(items, k, k, EmptyNode(name)), root,
                      Graft(f, k - (root + 1), 0, Node(EmptyNode(name)[0], Empty, Empty)))
  {
    var k := PropsEnd(items, at + 1);
    PropsEndIs(items, at + 1);
    assert k <= root + 1 + f.Len();
    hide IsNode, PropsEnd, Spans, Flat, Proper, Forest.Len, Graft, Fits;
    var m := Node(EmptyNode(name)[0], Empty, Empty);
    FlatEmptyNode(m.begin);
    assert Flat(m) == EmptyNode(name);
    hide EmptyNode;
    NoLeaf(items, k);
    EditGrafts(items, root, f, k, Empty, m);
  }

  /** `fdt_del_node` cuts one whole subtree out of the tree. */
  lemma {:induction false} DelNodeGrafts(items: seq<Item>, root: nat, f: Forest, at: nat, g: Forest)
    requires IsNode(items, root, f) && root < at < root + 1 + f.Len() && IsNode(items, at, g)
    ensures CloseOf(items, at + 1, 0) == Some(at + 2 + g.Len()) && Fits(f, at - (root + 1), 2 + g.Len())
    ensures IsNode(Replace(items, at, at + 2 + g.Len(), []), root, Graft(f, at - (root + 1), 2 + g.Len(), Empty))
  {
    hide Spans, Flat, Proper, Forest.Len, Graft, Fits, CloseOf;
    NodeEnds(items, at, g);
    var m := Node(items[at], g, Empty);
    assert items[at].Begin? && Spans(items, at + 1, g) && at + 1 + g.Len() < |items| && items[at + 1 + g.Len()] == EndNode;
    hide IsNode;
    NoLeaf(items, at + 2 + g.Len());
    MakeNode(items, at, g, Empty);
    NodeLen(items[at], g);
    EditGrafts(items, root, f, at, m, Empty);
  }

  // ----- reading back -----

  lemma {:induction false} FindThere(items: seq<Item>, k: nat, j: nat, table: seq<byte>, name: seq<byte>)
    requires k <= j < |items| && items[j].Prop? && StringAt(table, items[j].nameoff) == name
    requires forall m :: k <= m < j ==> items[m].Nop? || (items[m].Prop? && StringAt(table, items[m].nameoff) != name)
    ensures FindProp(items, k, table, name) == At(j)
    decreases j - k
  {
    hide StringAt;
    if k < j {
      FindThere(items, k + 1, j, table, name);
    }
  }

  /** A property that was set is the one that is found. */
  lemma SetThenGet(items: seq<Item>, at: nat, table: seq<byte>, more: seq<byte>, name: seq<byte>, it: Item)
    requires at < |items| && NamesOk(items, table) && it.Prop? && StringAt(table + more, it.nameoff) == name
    ensures var i, j := SetFrom(items, at, table, name), SetTo(items, at, table, name);
            && i <= j <= |items|
            && FindProp(Replace(items, i, j, [it]), at + 1, table + more, name) == At(i)
            && Replace(items, i, j, [it])[i] == it
  {
    hide StringAt, NamesOk;
    FindPropKept(items, at + 1, table, more, name);
    FindPropIsFirst(items, at + 1, table + more, name);
    var i, j := SetFrom(items, at, table, name), SetTo(items, at, table, name);
    var r := Replace(items, i, j, [it]);
    assert forall m :: at + 1 <= m < i ==> r[m] == items[m];
    FindThere(r, at + 1, i, table + more, name);
  }

  /** Where item `k` stands once the items from `i` to `j` are replaced by one. */
  function Shift(k: nat, i: nat, j: nat): nat
    requires i <= j <= k
  {
    k - j + i + 1
  }

  function ShiftSearch(f: PropSearch, i: nat, j: nat): PropSearch
    requires f.At? ==> i <= j <= f.at
  {
    if f.At? then At(Shift(f.at, i, j)) else f
  }

  lemma {:induction false} FindBehind(items: seq<Item>, i: nat, j: nat, it: Item, k: nat, table: seq<byte>, key: seq<byte>)
    requires i <= j <= k <= |items|
    ensures var r := Replace(items, i, j, [it]);
            Shift(k, i, j) <= |r|
            && FindProp(r, Shift(k, i, j), table, key) == ShiftSearch(FindProp(items, k, table, key), i, j)
    decreases |items| - k
  {
    hide StringAt;
    var r := Replace(items, i, j, [it]);
    if k < |items| {
      assert r[Shift(k, i, j)] == items[k];
      FindBehind(items, i, j, it, k + 1, table, key);
    }
  }

  /** A search that starts and stops before the edit. */
  lemma {:induction false} FindBefore(items: seq<Item>, i: nat, j: nat, it: Item, k: nat, at: nat, table: seq<byte>, key: seq<byte>)
    requires k <= at < i <= j <= |items| && items[at].Begin?
    ensures FindProp(Replace(items, i, j, [it]), k, table, key) == FindProp(items, k, table, key)
    ensures FindProp(items, k, table, key).At? ==> FindProp(items, k, table, key).at < at
    decreases at - k
  {
    hide StringAt;
    assert Replace(items, i, j, [it])[k] == items[k];
    if k < at {
      FindBefore(items, i, j, it, k + 1, at, table, key);
    }
  }

  /** A search for another name that passes the edit. */
  lemma {:induction false} FindPast(items: seq<Item>, i: nat, j: nat, it: Item, k: nat, table: seq<byte>, key: seq<byte>)
    requires k <= i <= j <= |items| && j <= i + 1 && it.Prop? && StringAt(table, it.nameoff) != key
    requires j == i + 1 ==> items[i].Prop? && StringAt(table, items[i].nameoff) != key
    ensures var f, g := FindProp(items, k, table, key), FindProp(Replace(items, i, j, [it]), k, table, key);
            (f.At? ==> f.at < i || j <= f.at) && g == if f.At? && f.at < i then f else ShiftSearch(f, i, j)
    decreases i - k
  {
    hide StringAt;
    var r := Replace(items, i, j, [it]);
    if k < i {
      assert r[k] == items[k];
      FindPast(items, i, j, it, k + 1, table, key);
    } else {
      assert r[i] == it;
      FindBehind(items, i, j, it, j, table, key);
    }
  }

  /** Two searches come to the same item, or to nothing for the same reason. */
  predicate SameFound(items: seq<Item>, f: PropSearch, r: seq<Item>, g: PropSearch) {
    && (f.At? <==> g.At?) && (f.Absent? <==> g.Absent?)
    && (f.At? ==> f.at < |items| && g.at < |r| && r[g.at] == items[f.at])
  }

  lemma ShiftedFound(items: seq<Item>, i: nat, j: nat, it: Item, f: PropSearch)
    requires i <= j <= |items| && (f.At? ==> f.at < |items| && (f.at < i || j <= f.at))
    ensures SameFound(items, f, Replace(items, i, j, [it]), if f.At? && f.at < i then f else ShiftSearch(f, i, j))
  {
    var r := Replace(items, i, j, [it]);
    if f.At? && f.at >= j {
      assert r[Shift(f.at, i, j)] == items[f.at];
    }
  }

  /** Setting a property changes no other lookup: any other name in the same node, and any name in any
      other node, is found with the same item as before, or not found as before. */
  lemma SetIsLocal(items: seq<Item>, at: nat, table: seq<byte>, more: seq<byte>, name: seq<byte>, it: Item, at2: nat, key: seq<byte>)
    requires at < |items| && items[at].Begin? && NamesOk(items, table) && it.Prop? && StringAt(table + more, it.nameoff) == name
    requires at2 < |items| && items[at2].Begin? && (at2 != at || key != name)
    ensures var i, j := SetFrom(items, at, table, name), SetTo(items, at, table, name);
            && i <= j <= |items| && (at2 < i || j <= at2)
            && var r, k := Replace(items, i, j, [it]), if at2 < i then at2 else Shift(at2, i, j);
               && k < |r| && r[k] == items[at2]
               && SameFound(items, FindProp(items, at2 + 1, table, key), r, FindProp(r, k + 1, table + more, key))
  {
    hide StringAt, NamesOk, SameFound;
    var i, j := SetFrom(items, at, table, name), SetTo(items, at, table, name);
    FindPropIsFirst(items, at + 1, table, name);
    assert at2 < i || j <= at2;
    FindPropKept(items, at2 + 1, table, more, key);
    FindPropKept(items, at + 1, table, more, name);
    hide FindProp, SetFrom, SetTo;
    LookupKept(items, i, j, it, at, at2, table + more, name, key);
  }

  lemma LookupKept(items: seq<Item>, i: nat, j: nat, it: Item, at: nat, at2: nat, table: seq<byte>, name: seq<byte>, key: seq<byte>)
    requires at < i <= j <= |items| && j <= i + 1 && items[at].Begin? && it.Prop? && StringAt(table, it.nameoff) == name
    requires j == i + 1 ==> items[i].Prop? && StringAt(table, items[i].nameoff) == name
    requires at2 < |items| && (at2 <= at || j <= at2) && (at2 != at || key != name)
    ensures var r, k := Replace(items, i, j, [it]), if at2 < i then at2 else Shift(at2, i, j);
            && k < |r| && r[k] == items[at2]
            && SameFound(items, FindProp(items, at2 + 1, table, key), r, FindProp(r, k + 1, table, key))
  {
    hide StringAt, FindProp, SameFound;
    var f := FindProp(items, at2 + 1, table, key);
    if at2 >= j {
      FindBehind(items, i, j, it, at2 + 1, table, key);
    } else if at2 < at {
      FindBefore(items, i, j, it, at2 + 1, at, table, key);
    } else {
      FindPast(items, i, j, it, at + 1, table, key);
    }
    ShiftedFound(items, i, j, it, f);
  }

  // ----- lookups in trees -----

  /** A property of that name stands directly in the forest, before any node does. */
  ghost predicate Leading(f: Forest, table: seq<byte>, name: seq<byte>) {
    match f
    case Empty => false
    case Leaf(it, rest) => (it.Prop? && StringAt(table, it.nameoff) == name) || Leading(rest, table, name)
    case Node(_, _, _) => false
  }

  /** A property of that name stands directly in the forest, wherever. */
  ghost predicate Among(f: Forest, table: seq<byte>, name: seq<byte>) {
    match f
    case Empty => false
    case Leaf(it, rest) => (it.Prop? && StringAt(table, it.nameoff) == name) || Among(rest, table, name)
    case Node(_, _, rest) => Among(rest, table, name)
  }

  /** Properties stand before nodes, as the format asks. */
  ghost predicate Orderly(f: Forest) {
    match f
    case Empty => true
    case Leaf(_, rest) => Orderly(rest)
    case Node(_, _, rest) => NoProps(rest)
  }

  /** There is no property directly in the forest. */
  ghost predicate NoProps(f: Forest) {
    match f
    case Empty => true
    case Leaf(it, rest) => !it.Prop? && NoProps(rest)
    case Node(_, _, rest) => NoProps(rest)
  }

  /** A search among the properties of a node of a tree stays in the node, and finds the first of those
      of the name that stand before its nodes, or none. */
  lemma {:induction false} FoundInTree(items: seq<Item>, k: nat, f: Forest, table: seq<byte>, name: seq<byte>)
    requires Spans(items, k, f) && k + f.Len() < |items| && items[k + f.Len()] == EndNode
    ensures var r := FindProp(items, k, table, name);
            && !r.Unclosed? && (r.At? <==> Leading(f, table, name))
            && (r.At? ==> k <= r.at < k + f.Len() && NoneNamed(items, k, r.at, table, name))
    decreases f
  {
    hide Spans, Forest.Len, StringAt;
    Parts(items, k, f);
    if f.Leaf? && !(f.item.Prop? && StringAt(table, f.item.nameoff) == name) {
      FoundInTree(items, k + 1, f.rest, table, name);
    }
  }

  lemma {:induction false} NoPropsNone(f: Forest, table: seq<byte>, name: seq<byte>)
    requires NoProps(f)
    ensures !Among(f, table, name)
  {
    hide StringAt;
    match f
    case Empty =>
    case Leaf(_, rest) => NoPropsNone(rest, table, name);
    case Node(_, _, rest) => NoPropsNone(rest, table, name);
  }

  /** Nothing is passed over when properties stand before nodes. */
  lemma {:induction false} OrderlyLeads(f: Forest, table: seq<byte>, name: seq<byte>)
    ensures Leading(f, table, name) ==> Among(f, table, name)
    ensures Orderly(f) ==> (Leading(f, table, name) <==> Among(f, table, name))
  {
    hide StringAt;
    match f
    case Empty =>
    case Leaf(_, rest) => OrderlyLeads(rest, table, name);
    case Node(_, _, rest) =>
      if Orderly(f) {
        NoPropsNone(rest, table, name);
      }
  }

  /** The search for a property of a node of a tree says that there is none if and only if none of the name
      stands before the node's own nodes; so, when properties come first, if and only if none stands
      directly in the node. */
  lemma LookupInTree(items: seq<Item>, at: nat, f: Forest, table: seq<byte>, name: seq<byte>)
    requires IsNode(items, at, f)
    ensures var r := FindProp(items, at + 1, table, name);
            && (r.At? <==> Leading(f, table, name)) && (r.Absent? <==> !Leading(f, table, name))
            && (Orderly(f) ==> (r.Absent? <==> !Among(f, table, name)))
  {
    hide Spans, Forest.Len, StringAt, FindProp;
    FoundInTree(items, at + 1, f, table, name);
    OrderlyLeads(f, table, name);
  }

  /** What `fdt_setprop` returns for a node of a tree: an error for lack of room, and no other. */
  lemma SetInTree(items: seq<Item>, nodeoffset: int, at: nat, f: Forest, table: seq<byte>, name: seq<byte>, len: nat, room: int)
    requires IsNode(items, at, f) && nodeoffset >= 0
    ensures SetCode(items, nodeoffset, at, table, name, len, room) in {0, -FDT_ERR_NOSPACE}
    ensures !Leading(f, table, name) ==>
              (SetCode(items, nodeoffset, at, table, name, len, room) == 0 <==>
               12 + Align(len) + (if Stands(table, name) then 0 else |name| + 1) <= room)
    ensures Leading(f, table, name) ==>
              exists j :: at < j < |items| && NoneNamed(items, at + 1, j, table, name)
                          && items[j].Prop? && StringAt(table, items[j].nameoff) == name
                          && (SetCode(items, nodeoffset, at, table, name, len, room) == 0 <==>
                              Align(len) - Align(|items[j].value|) <= room)
  {
    hide Spans, Forest.Len, StringAt, FindProp, Align, Stands;
    FoundInTree(items, at + 1, f, table, name);
  }

  /** What `fdt_add_subnode` returns for a node of a tree: that the name exists if and only if a child has it,
      and otherwise an error for lack of room or the place of the new node. */
  lemma AddInTree(items: seq<Item>, at: nat, f: Forest, name: seq<byte>, room: int)
    requires IsNode(items, at, f)
    ensures AddCode(items, at, name, room) == -FDT_ERR_EXISTS <==> Named(f, at + 1, name).Some?
    ensures AddCode(items, at, name, room) == -FDT_ERR_NOSPACE <==> Named(f, at + 1, name).None? && 8 + Align(|name| + 1) > room
    ensures Named(f, at + 1, name).None? && 8 + Align(|name| + 1) <= room ==>
              exists k :: at < k <= at + 1 + f.Len() && AddCode(items, at, name, room) == Off(items, k)
                          && (forall m :: at < m < k ==> items[m].Prop? || items[m].Nop?)
                          && (items[k].Begin? || items[k].EndNode?)
  {
    hide Spans, Forest.Len, ChildNamed, Named, PropsEnd, NodeBytes, Align, Off;
    NamedIsChild(items, at + 1, f, name);
    var k := PropsEndInTree(items, at, f);
    OffNonNegative(items, k);
  }

  lemma PropsEndInTree(items: seq<Item>, at: nat, f: Forest) returns (k: nat)
    requires IsNode(items, at, f)
    ensures k == PropsEnd(items, at + 1) && at < k <= at + 1 + f.Len() < |items|
    ensures (forall m :: at < m < k ==> items[m].Prop? || items[m].Nop?) && (items[k].Begin? || items[k].EndNode?)
  {
    hide Spans, Forest.Len;
    k := PropsEnd(items, at + 1);
    PropsEndIs(items, at + 1);
    hide PropsEnd;
    var e := at + 1 + f.Len();
    assert items[e] == EndNode;
  }

  /** The end of a node of a tree is behind its own end tag, and there is always one. */
  lemma EndInTree(items: seq<Item>, nodeoffset: int, at: nat, f: Forest)
    requires IsNode(items, at, f) && nodeoffset >= 0
    ensures EndCode(items, nodeoffset, at) == Off(items, at + 2 + f.Len()) >= 0
  {
    NodeEnds(items, at, f);
    hide Spans, Forest.Len, CloseOf;
    OffNonNegative(items, at + 2 + f.Len());
  }

  /** A property behind a node is in the tree and is not found: a root with the child `a` and then a
      property of the empty name. */
  lemma HiddenProperty()
    ensures var items, f := [Begin([], [0, 0, 0]), Begin([LETTER_A], [0, 0]), EndNode, Prop(0, [], []), EndNode],
                            Node(Begin([LETTER_A], [0, 0]), Empty, Leaf(Prop(0, [], []), Empty));
            && (forall it :: it in items ==> it.Ok()) && IsNode(items, 0, f)
            && Among(f, [0], []) && FindProp(items, 1, [0], []) == Absent
  {
    assert NameEnd([0], 0) == 0;
  }

  // ----- meanings -----

  /** The same in terms of the tags a client reads: one property is put in the place of the old one of
      that name, or added, and every other tag stays. */
  lemma SetMeans(items: seq<Item>, at: nat, table: seq<byte>, more: seq<byte>, name: seq<byte>, it: Item)
    requires at < |items| && NamesOk(items, table) && it.Prop? && StringAt(table + more, it.nameoff) == name
    ensures var i, j := SetFrom(items, at, table, name), SetTo(items, at, table, name);
            && i <= j <= |items|
            && var before, after := Meaning(items[..i], table), Meaning(items[j..], table);
               && Meaning(Replace(items, i, j, [it]), table + more) == before + [Property(name, it.value)] + after
               && Meaning(items, table) == before + (if j == i then [] else [Property(name, items[i].value)]) + after
  {
    hide StringAt, NamesOk;
    var i, j := SetFrom(items, at, table, name), SetTo(items, at, table, name);
    FindPropIsFirst(items, at + 1, table, name);
    hide FindProp;
    MeaningReplace(items, i, j, [it], table + more);
    MeaningReplace(items, i, j, [], table);
    NamesOfPart(items, 0, i, table);
    NamesOfPart(items, j, |items|, table);
    MeaningKept(items[..i], table, more);
    MeaningKept(items[j..], table, more);
    MeaningOfOne(it, table + more);
    if j == i {
      assert items[i..j] == [];
    } else {
      assert items[i..j] == [items[i]];
      MeaningOfOne(items[i], table);
    }
  }

  lemma MeaningOfOne(it: Item, table: seq<byte>)
    ensures Meaning([it], table) == TokenOf(it, table)
  {
    assert [it][1..] == [];
  }

  lemma NamesOfPart(items: seq<Item>, i: nat, j: nat, table: seq<byte>)
    requires NamesOk(items, table) && i <= j <= |items|
    ensures NamesOk(items[i..j], table)
    ensures i == 0 ==> NamesOk(items[..j], table)
    ensures j == |items| ==> NamesOk(items[i..], table)
  {
    assert j == |items| ==> items[i..] == items[i..j];
  }

  // ----- adding and deleting -----

  /** `fdt_del_node` on a node that `fdt_add_subnode` has put in front of item `k`. */
  method DeleteAdded(fdt: Blob, offset: nat, name: seq<byte>, ghost items: seq<Item>, ghost k: nat, ghost s: seq<byte>)
    requires k <= |items| && Editable(fdt, Replace(items, k, k, EmptyNode(name)))
    requires offset == Off(items, k) && Inserted(s, fdt.Struct(), offset, NodeBytes(name))
    modifies fdt`version, fdt`size_dt_struct, fdt`off_dt_strings, fdt.buf
    ensures Editable(fdt, items) && FrontKept(fdt) && fdt.totalsize == old(fdt.totalsize)
    ensures fdt.Struct() == s && fdt.Strings() == old(fdt.Strings())
    ensures fdt.off_dt_strings == old(fdt.off_dt_strings) - |NodeBytes(name)|
  {
    hide Layout, Off, NamesOk, Align, Blob.Struct, Blob.Strings, Blob.Bytes, NodeBytes, EmptyNode, Replace, CloseOf, Removed, Inserted;
    ghost var items', t := Replace(items, k, k, EmptyNode(name)), fdt.Struct();
    ReadyPasses(fdt);
    EmptyCloses(t, items, k, name);
    var err := DelNode(fdt, offset, items', k);
    Undone(s, t, fdt.Struct(), offset, NodeBytes(name));
  }

  /** `fdt_add_subnode`, and, if it worked, `fdt_del_node` at the offset it returned: nothing is left
      of the node, but when it was put where there is no parent. */
  method AddThenDelete(fdt: Blob, parentoffset: int, name: seq<byte>, ghost items: seq<Item>, ghost at: nat) returns (r: int)
    requires Editable(fdt, items) && Denotes(items, parentoffset, at)
    requires 0 !in name && |name| < MAX_STRUCT
    modifies fdt`version, fdt`size_dt_struct, fdt`off_dt_strings, fdt.buf
    ensures fdt.totalsize == old(fdt.totalsize) && Ready(fdt) && fdt.Strings() == old(fdt.Strings())
    ensures fdt.Struct() == old(fdt.Struct()) <==> !old(Misplaced(parentoffset, name, fdt.totalsize - DataSize(fdt)))
    ensures fdt.Struct() == old(fdt.Struct()) ==> Editable(fdt, items) && FrontKept(fdt)
    ensures r >= 0 ==> fdt.off_dt_strings == old(fdt.off_dt_strings)
  {
    hide Layout, Off, NamesOk, Align, Blob.Struct, Blob.Strings, Blob.Bytes, NodeBytes, EmptyNode, PropsEnd, Replace, ChildNamed, Inserted, Before;
    ReadyPasses(fdt);
    ghost var s := fdt.Struct();
    r := AddSubnode(fdt, parentoffset, name, items, at);
    if r >= 0 {
      DeleteAdded(fdt, r, name, items, PropsEnd(items, at + 1), s);
    }
  }

  /** Adding a node below a child of the root that was looked up and not checked: when there is no such
      child, the new node, if it fits, destroys the structure block and returns an error. */
  method AddUnchecked(fdt: Blob, parent: seq<byte>, name: seq<byte>, ghost items: seq<Item>) returns (r: int)
    requires Editable(fdt, items) && items != [] && items[0].Begin?
    requires 0 !in parent && |parent| <= MAX_STRUCT && 0 !in name && |name| < MAX_STRUCT
    modifies fdt`version, fdt`size_dt_struct, fdt`off_dt_strings, fdt.buf
    ensures ChildNamed(items, 1, 0, parent).None? && old(DataSize(fdt)) + |NodeBytes(name)| <= fdt.totalsize ==>
              && r == -FDT_ERR_TRUNCATED && Ready(fdt) && 8 <= fdt.off_dt_struct && |NodeBytes(name)| >= 8
              && Before(fdt, 8) == NodeBytes(name)[..8]
              && fdt.Struct() == NodeBytes(name)[8..] + old(Before(fdt, 8)) + old(fdt.Struct()) != old(fdt.Struct())
    ensures ChildNamed(items, 1, 0, parent).Some? && r < 0 ==> Editable(fdt, items) && fdt.Struct() == old(fdt.Struct())
  {
    hide Layout, Off, NamesOk, Align, Blob.Struct, Blob.Strings, Blob.Bytes, NodeBytes, EmptyNode, PropsEnd, Replace, ChildNamed, Inserted, Before;
    ReadyPasses(fdt);
    OffZero(items);
    var parentoffset := SubnodeOffset(fdt, 0, parent, items, 0);
    ghost var c := ChildNamed(items, 1, 0, parent);
    if c.Some? {
      OffNonNegative(items, c.value);
    }
    r := AddSubnode(fdt, parentoffset, name, items, if c.Some? then c.value else 0);
  }

  lemma Undone(s: seq<byte>, t: seq<byte>, u: seq<byte>, o: nat, val: seq<byte>)
    requires Inserted(s, t, o, val) && Removed(t, u, o, |val|)
    ensures u == s
  {
    assert t[..o] == s[..o] && t[o + |val|..] == s[o..];
  }

  lemma {:induction false} EmptyCloses(t: seq<byte>, items: seq<Item>, k: nat, name: seq<byte>)
    requires k <= |items| && Layout(t, Replace(items, k, k, EmptyNode(name)))
    ensures var r := Replace(items, k, k, EmptyNode(name));
            && k + 2 <= |r| && Off(r, k) == Off(items, k) && Replace(r, k, k + 2, []) == items
            && r[k].Begin? && CloseOf(r, k + 1, 0) == Some(k + 2)
            && Off(r, k + 2) == Off(r, k) + |NodeBytes(name)|
  {
    hide Layout, Align, NodeBytes;
    var r := Replace(items, k, k, EmptyNode(name));
    assert r[k] == EmptyNode(name)[0] && r[k + 1] == EndNode;
    OffReplaceBefore(items, k, k, EmptyNode(name), k);
    assert r[..k] == items[..k] && r[k + 2..] == items[k..];
    assert Off(r, k + 1) == Off(r, k) + r[k].Size() && Off(r, k + 2) == Off(r, k + 1) + 4;
  }
}
