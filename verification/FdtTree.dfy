/** Trees of nodes, and what the flat traversal functions mean on them. */
module FdtTree {
  import opened Wrappers
  import opened FdtFormat
  import opened FdtTraverse

  /** What stands between a node's tag and its end tag, in first-child, next-sibling form. */
  datatype Forest =
    | Empty
    | Leaf(item: Item, rest: Forest)
    | Node(begin: Item, body: Forest, rest: Forest)
  {
    /** The number of items. */
    function Len(): nat {
      match this
      case Empty => 0
      case Leaf(_, rest) => 1 + rest.Len()
      case Node(_, body, rest) => 1 + body.Len() + 1 + rest.Len()
    }
  }

  /** The items from `k` on are those of the forest. */
  ghost predicate Spans(items: seq<Item>, k: nat, f: Forest)
    decreases f
  {
    && k + f.Len() <= |items|
    && match f
       case Empty => true
       case Leaf(it, rest) => items[k] == it && (it.Prop? || it.Nop?) && Spans(items, k + 1, rest)
       case Node(b, body, rest) =>
         && items[k] == b && b.Begin? && Spans(items, k + 1, body)
         && items[k + 1 + body.Len()] == EndNode && Spans(items, k + 2 + body.Len(), rest)
  }

  lemma LeafParts(items: seq<Item>, k: nat, f: Forest)
    requires Spans(items, k, f) && f.Leaf?
    ensures k < |items| && items[k] == f.item && (items[k].Prop? || items[k].Nop?)
    ensures Spans(items, k + 1, f.rest) && f.Len() == 1 + f.rest.Len()
  {
  }

  lemma NodeParts(items: seq<Item>, k: nat, f: Forest)
    requires Spans(items, k, f) && f.Node?
    ensures k + f.Len() <= |items| && f.Len() == 2 + f.body.Len() + f.rest.Len()
    ensures items[k] == f.begin && items[k].Begin? && Spans(items, k + 1, f.body)
    ensures items[k + 1 + f.body.Len()] == EndNode && Spans(items, k + 2 + f.body.Len(), f.rest)
  {
  }

  /** What the items at `k` say about the forest there. */
  lemma Parts(items: seq<Item>, k: nat, f: Forest)
    requires Spans(items, k, f)
    ensures k + f.Len() <= |items| && (f.Empty? ==> f.Len() == 0)
    ensures f.Leaf? ==>
              && k < |items| && items[k] == f.item && (items[k].Prop? || items[k].Nop?)
              && Spans(items, k + 1, f.rest) && f.Len() == 1 + f.rest.Len()
    ensures f.Node? ==>
              && k + f.Len() <= |items| && f.Len() == 2 + f.body.Len() + f.rest.Len()
              && items[k] == f.begin && items[k].Begin? && Spans(items, k + 1, f.body)
              && items[k + 1 + f.body.Len()] == EndNode && Spans(items, k + 2 + f.body.Len(), f.rest)
  {
    if f.Leaf? {
      LeafParts(items, k, f);
    } else if f.Node? {
      NodeParts(items, k, f);
    }
  }

  lemma NothingSpans(items: seq<Item>, k: nat)
    requires k <= |items|
    ensures Spans(items, k, Empty) && Empty.Len() == 0
  {
  }

  lemma {:induction false} MakeLeaf(items: seq<Item>, k: nat, rest: Forest)
    requires k < |items| && (items[k].Prop? || items[k].Nop?) && Spans(items, k + 1, rest)
    ensures Spans(items, k, Leaf(items[k], rest)) && Leaf(items[k], rest).Len() == 1 + rest.Len()
  {
  }

  lemma {:induction false} MakeNode(items: seq<Item>, k: nat, body: Forest, rest: Forest)
    requires k + 1 + body.Len() < |items| && items[k].Begin? && items[k + 1 + body.Len()] == EndNode
    requires Spans(items, k + 1, body) && Spans(items, k + 2 + body.Len(), rest)
    ensures Spans(items, k, Node(items[k], body, rest)) && Node(items[k], body, rest).Len() == 2 + body.Len() + rest.Len()
  {
  }

  /** Item `i` is a node with body `f`. */
  ghost predicate IsNode(items: seq<Item>, i: nat, f: Forest) {
    && i < |items| && items[i].Begin? && Spans(items, i + 1, f)
    && i + 1 + f.Len() < |items| && items[i + 1 + f.Len()] == EndNode
  }

  /** Where the nodes directly in the forest start, when it starts at `k`. */
  function Children(f: Forest, k: nat): seq<nat> {
    match f
    case Empty => []
    case Leaf(_, rest) => Children(rest, k + 1)
    case Node(_, body, rest) => [k] + Children(rest, k + 2 + body.Len())
  }

  lemma {:induction false} CloseSkips(items: seq<Item>, k: nat, f: Forest, depth: nat)
    requires Spans(items, k, f)
    ensures CloseOf(items, k, depth) == CloseOf(items, k + f.Len(), depth)
    decreases f
  {
    hide Spans, Forest.Len;
    Parts(items, k, f);
    match f
    case Empty =>
    case Leaf(_, rest) => CloseSkips(items, k + 1, rest, depth);
    case Node(_, body, rest) =>
      CloseSkips(items, k + 1, body, depth + 1);
      CloseSkips(items, k + 2 + body.Len(), rest, depth);
  }

  /** The end of a node is behind its own end tag. */
  lemma NodeEnds(items: seq<Item>, i: nat, f: Forest)
    requires IsNode(items, i, f)
    ensures CloseOf(items, i + 1, 0) == Some(i + 1 + f.Len() + 1)
  {
    CloseSkips(items, i + 1, f, 0);
  }

  /** Conversely, what a search for the end of a node runs over is a forest. */
  lemma {:induction false} ClosedIsForest(items: seq<Item>, k: nat) returns (f: Forest)
    requires k <= |items| && CloseOf(items, k, 0).Some?
    ensures Spans(items, k, f) && CloseOf(items, k, 0) == Some(k + f.Len() + 1) && items[k + f.Len()] == EndNode
    decreases |items| - k
  {
    hide Spans, Forest.Len;
    match items[k]
    case EndNode =>
      NothingSpans(items, k);
      f := Empty;
    case Prop(_, _, _) =>
      var rest := ClosedIsForest(items, k + 1);
      MakeLeaf(items, k, rest);
      f := Leaf(items[k], rest);
    case Nop =>
      var rest := ClosedIsForest(items, k + 1);
      MakeLeaf(items, k, rest);
      f := Leaf(items[k], rest);
    case Begin(_, _) =>
      CloseNested(items, k + 1, 0);
      var body := ClosedIsForest(items, k + 1);
      var rest := ClosedIsForest(items, k + 2 + body.Len());
      MakeNode(items, k, body, rest);
      f := Node(items[k], body, rest);
  }

  /** Leaving two levels is leaving one and then the other. */
  lemma {:induction false} CloseNested(items: seq<Item>, k: nat, depth: nat)
    requires k <= |items| && CloseOf(items, k, depth + 1).Some?
    ensures CloseOf(items, k, depth).Some?
    ensures CloseOf(items, k, depth + 1) == CloseOf(items, CloseOf(items, k, depth).value, 0)
    decreases |items| - k
  {
    match items[k]
    case Begin(_, _) => CloseNested(items, k + 1, depth + 1);
    case EndNode =>
      if depth > 0 {
        CloseNested(items, k + 1, depth - 1);
      }
    case Prop(_, _, _) => CloseNested(items, k + 1, depth);
    case Nop => CloseNested(items, k + 1, depth);
  }

  /** Below the level of interest, whole forests are passed over. */
  lemma {:induction false} ChildSkips(items: seq<Item>, k: nat, f: Forest, depth: nat)
    requires Spans(items, k, f) && depth > 0
    ensures NextChild(items, k, depth) == NextChild(items, k + f.Len(), depth)
    decreases f
  {
    hide Spans, Forest.Len;
    Parts(items, k, f);
    match f
    case Empty =>
    case Leaf(_, rest) => ChildSkips(items, k + 1, rest, depth);
    case Node(_, body, rest) =>
      ChildSkips(items, k + 1, body, depth + 1);
      ChildSkips(items, k + 2 + body.Len(), rest, depth);
  }

  function At(c: seq<nat>, j: nat): Option<nat> {
    if j < |c| then Some(c[j]) else None
  }

  lemma AtCons(k: nat, c: seq<nat>, j: nat)
    ensures At([k] + c, 0) == Some(k) && At([k] + c, j + 1) == At(c, j)
    ensures j < |c| + 1 ==> ([k] + c)[j] == if j == 0 then k else c[j - 1]
  {
  }

  lemma NextAt(items: seq<Item>, k: nat, depth: nat)
    requires k < |items|
    ensures var r := NextChild(items, k, depth);
            match items[k]
            case Begin(_, _) => r == if depth == 0 then Some(k) else NextChild(items, k + 1, depth + 1)
            case EndNode => r == if depth == 0 then None else NextChild(items, k + 1, depth - 1)
            case Prop(_, _, _) => r == NextChild(items, k + 1, depth)
            case Nop => r == NextChild(items, k + 1, depth)
  {
  }

  /** `fdt_first_subnode` finds the first direct child. */
  lemma {:induction false} FirstChild(items: seq<Item>, k: nat, f: Forest)
    requires Spans(items, k, f) && k + f.Len() < |items| && items[k + f.Len()] == EndNode
    ensures NextChild(items, k, 0) == At(Children(f, k), 0)
    decreases f
  {
    hide Spans, Forest.Len, NextChild;
    Parts(items, k, f);
    NextAt(items, k, 0);
    if f.Leaf? {
      FirstChild(items, k + 1, f.rest);
    }
  }

  /** From a direct child, `fdt_next_subnode` finds the next one. */
  lemma {:induction false} ChildAfter(items: seq<Item>, k: nat, f: Forest, j: nat)
    requires Spans(items, k, f) && k + f.Len() < |items| && items[k + f.Len()] == EndNode && j < |Children(f, k)|
    ensures var c := Children(f, k)[j];
            k <= c < |items| && items[c].Begin? && NextChild(items, c + 1, 1) == At(Children(f, k), j + 1)
    decreases f
  {
    hide Spans, Forest.Len, NextChild, At;
    Parts(items, k, f);
    match f
    case Leaf(_, rest) => ChildAfter(items, k + 1, rest, j);
    case Node(_, body, rest) =>
      var e := k + 2 + body.Len();
      AtCons(k, Children(rest, e), j);
      if j == 0 {
        ChildSkips(items, k + 1, body, 1);
        NextAt(items, e - 1, 1);
        FirstChild(items, e, rest);
      } else {
        ChildAfter(items, e, rest, j - 1);
      }
  }

  /** `fdt_first_subnode` and then `fdt_next_subnode`, again and again, enumerate exactly the direct
      children of a node, in order. */
  lemma {:induction false} ChildrenEnumerated(items: seq<Item>, k: nat, f: Forest, j: nat)
    requires Spans(items, k, f) && k + f.Len() < |items| && items[k + f.Len()] == EndNode
    ensures NextChild(items, k, 0) == At(Children(f, k), 0)
    ensures j < |Children(f, k)| ==>
              var c := Children(f, k)[j];
              k <= c < |items| && items[c].Begin? && NextChild(items, c + 1, 1) == At(Children(f, k), j + 1)
  {
    hide Spans, Forest.Len, NextChild;
    FirstChild(items, k, f);
    if j < |Children(f, k)| {
      ChildAfter(items, k, f, j);
    }
  }

  /** The depth does not change over a forest, and does not fall below inside it. */
  lemma {:induction false} DepthOverForest(items: seq<Item>, k: nat, f: Forest)
    requires Spans(items, k, f)
    ensures Depth(items, k + f.Len()) == Depth(items, k)
    ensures forall m :: k <= m <= k + f.Len() ==> Depth(items, m) >= Depth(items, k)
    decreases f
  {
    hide Spans, Forest.Len;
    Parts(items, k, f);
    match f
    case Empty =>
    case Leaf(_, rest) => DepthOverForest(items, k + 1, rest);
    case Node(_, body, rest) =>
      DepthOverForest(items, k + 1, body);
      DepthOverForest(items, k + 2 + body.Len(), rest);
  }

  /** The node a child hangs under is its ancestor one level up; so `fdt_parent_offset` is the tree
      parent and `fdt_node_depth` the number of tree ancestors. */
  lemma ParentOfChild(items: seq<Item>, i: nat, f: Forest, j: nat)
    requires IsNode(items, i, f) && j < |Children(f, i + 1)| && Depth(items, i) >= 0
    ensures var c := Children(f, i + 1)[j];
            c < |items| && Depth(items, c) == Depth(items, i) + 1 && Ancestor(items, c, Depth(items, i), i)
  {
    DepthOverForest(items, i + 1, f);
    ChildInForest(items, i + 1, f, j);
    assert Depth(items, i + 1) == Depth(items, i) + 1;
  }

  lemma {:induction false} ChildInForest(items: seq<Item>, k: nat, f: Forest, j: nat)
    requires Spans(items, k, f) && j < |Children(f, k)|
    ensures var c := Children(f, k)[j]; k <= c < k + f.Len() && items[c].Begin? && Depth(items, c) == Depth(items, k)
    decreases f
  {
    hide Spans, Forest.Len;
    Parts(items, k, f);
    match f
    case Leaf(_, rest) => ChildInForest(items, k + 1, rest, j);
    case Node(_, body, rest) =>
      if j > 0 {
        DepthOverForest(items, k + 1, body);
        assert Depth(items, k + 2 + body.Len()) == Depth(items, k);
        hide Depth;
        ChildInForest(items, k + 2 + body.Len(), rest, j - 1);
      }
  }

  lemma {:induction false} NamedSkips(items: seq<Item>, k: nat, f: Forest, depth: nat, key: seq<byte>)
    requires Spans(items, k, f) && depth > 0
    ensures ChildNamed(items, k, depth, key) == ChildNamed(items, k + f.Len(), depth, key)
    decreases f
  {
    hide Spans, Forest.Len, NameMatches;
    Parts(items, k, f);
    match f
    case Empty =>
    case Leaf(_, rest) => NamedSkips(items, k + 1, rest, depth, key);
    case Node(_, body, rest) =>
      NamedSkips(items, k + 1, body, depth + 1, key);
      NamedSkips(items, k + 2 + body.Len(), rest, depth, key);
  }

  /** The first of the nodes directly in the forest whose name matches. */
  function Named(f: Forest, k: nat, key: seq<byte>): Option<nat> {
    match f
    case Empty => None
    case Leaf(_, rest) => Named(rest, k + 1, key)
    case Node(b, body, rest) =>
      if b.Begin? && NameMatches(b.name, key) then Some(k) else Named(rest, k + 2 + body.Len(), key)
  }

  /** `fdt_subnode_offset` finds the first direct child whose name matches, and only that. */
  lemma {:induction false} NamedIsChild(items: seq<Item>, k: nat, f: Forest, key: seq<byte>)
    requires Spans(items, k, f) && k + f.Len() < |items| && items[k + f.Len()] == EndNode
    ensures ChildNamed(items, k, 0, key) == Named(f, k, key)
    decreases f
  {
    hide Spans, Forest.Len, NameMatches;
    Parts(items, k, f);
    match f
    case Empty =>
    case Leaf(_, rest) => NamedIsChild(items, k + 1, rest, key);
    case Node(_, body, rest) =>
      NamedSkips(items, k + 1, body, 1, key);
      NamedIsChild(items, k + 2 + body.Len(), rest, key);
  }
}
