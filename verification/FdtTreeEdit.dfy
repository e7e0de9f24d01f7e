/** Edits as changes of the tree: what a splice of items does to the forest they spell. */
module FdtTreeEdit {
  import opened FdtFormat
  import opened FdtTraverse
  import opened FdtStrings
  import opened FdtTree
  import opened FdtEdit

  /** From item `n` of the forest on, the next `d` items are whole subtrees side by side. */
  predicate Fits(f: Forest, n: nat, d: nat) {
    match f
    case Empty => n == 0 && d == 0
    case Leaf(_, rest) =>
      if n > 0 then Fits(rest, n - 1, d) else d == 0 || Fits(rest, 0, d - 1)
    case Node(_, body, rest) =>
      if n == 0 then d == 0 || (d >= 2 + body.Len() && Fits(rest, 0, d - 2 - body.Len()))
      else if n <= 1 + body.Len() then Fits(body, n - 1, d)
      else Fits(rest, n - 2 - body.Len(), d)
  }

  /** One forest behind another. */
  function Join(f: Forest, g: Forest): (r: Forest)
    ensures r.Len() == f.Len() + g.Len()
  {
    match f
    case Empty => g
    case Leaf(it, rest) => Leaf(it, Join(rest, g))
    case Node(b, body, rest) => Node(b, body, Join(rest, g))
  }

  /** The forest without its first `d` items. */
  function Drop(f: Forest, d: nat): (r: Forest)
    requires Fits(f, 0, d)
    ensures r.Len() == f.Len() - d
  {
    if d == 0 then f
    else match f
      case Leaf(_, rest) => Drop(rest, d - 1)
      case Node(_, body, rest) => Drop(rest, d - 2 - body.Len())
  }

  /** The forest with the `d` items from item `n` on replaced by the forest `m`: all nodes keep their
      places, names and other contents. */
  function Graft(f: Forest, n: nat, d: nat, m: Forest): (r: Forest)
    requires Fits(f, n, d)
    ensures r.Len() == f.Len() - d + m.Len()
    decreases f
  {
    if n == 0 then Join(m, Drop(f, d))
    else match f
      case Leaf(it, rest) => Leaf(it, Graft(rest, n - 1, d, m))
      case Node(b, body, rest) =>
        if n <= 1 + body.Len() then Node(b, Graft(body, n - 1, d, m), rest)
        else Node(b, body, Graft(rest, n - 2 - body.Len(), d, m))
  }

  // ----- forests as items -----

  /** Leaves are properties and NOPs, and nodes begin with their tag. */
  predicate Proper(f: Forest) {
    match f
    case Empty => true
    case Leaf(it, rest) => (it.Prop? || it.Nop?) && Proper(rest)
    case Node(b, body, rest) => b.Begin? && Proper(body) && Proper(rest)
  }

  /** The items that spell the forest. */
  function Flat(f: Forest): (s: seq<Item>)
    ensures |s| == f.Len()
  {
    match f
    case Empty => []
    case Leaf(it, rest) => [it] + Flat(rest)
    case Node(b, body, rest) => [b] + Flat(body) + [EndNode] + Flat(rest)
  }

  lemma SplitNode(items: seq<Item>, k: nat, n: nat, m: nat)
    requires k + 2 + n + m <= |items|
    ensures items[k..k + 2 + n + m] ==
            [items[k]] + items[k + 1..k + 1 + n] + [items[k + 1 + n]] + items[k + 2 + n..k + 2 + n + m]
  {
  }

  lemma {:induction false} NodeFlat(items: seq<Item>, k: nat, b: Item, body: Forest, rest: Forest)
    requires var e := k + 2 + body.Len();
             && e + rest.Len() <= |items| && items[k] == b && items[e - 1] == EndNode
             && items[k + 1..e - 1] == Flat(body) && items[e..e + rest.Len()] == Flat(rest)
    ensures items[k..k + 2 + body.Len() + rest.Len()] == Flat(Node(b, body, rest))
  {
    hide Forest.Len;
    SplitNode(items, k, body.Len(), rest.Len());
  }

  /** Where a forest is spelled, its items stand. */
  lemma {:induction false} SpansFlat(items: seq<Item>, k: nat, f: Forest)
    requires Spans(items, k, f)
    ensures k + f.Len() <= |items| && items[k..k + f.Len()] == Flat(f)
    decreases f
  {
    hide Spans, Forest.Len, Flat;
    Parts(items, k, f);
    match f
    case Empty => NothingFlat(items, k);
    case Leaf(it, rest) =>
      SpansFlat(items, k + 1, rest);
      LeafFlat(items, k, rest);
    case Node(b, body, rest) =>
      SpansFlat(items, k + 1, body);
      SpansFlat(items, k + 2 + body.Len(), rest);
      NodeFlat(items, k, b, body, rest);
  }

  lemma {:induction false} SpansProper(items: seq<Item>, k: nat, f: Forest)
    requires Spans(items, k, f)
    ensures Proper(f)
    decreases f
  {
    hide Spans, Forest.Len;
    Parts(items, k, f);
    match f
    case Empty =>
    case Leaf(_, rest) => SpansProper(items, k + 1, rest);
    case Node(_, body, rest) =>
      SpansProper(items, k + 1, body);
      SpansProper(items, k + 2 + body.Len(), rest);
  }

  lemma NothingFlat(items: seq<Item>, k: nat)
    requires k <= |items|
    ensures items[k..k] == Flat(Empty)
  {
  }

  lemma {:induction false} LeafFlat(items: seq<Item>, k: nat, rest: Forest)
    requires k + 1 + rest.Len() <= |items| && items[k + 1..k + 1 + rest.Len()] == Flat(rest)
    ensures items[k..k + (1 + rest.Len())] == Flat(Leaf(items[k], rest))
  {
    hide Forest.Len;
    var n := rest.Len();
    assert items[k..k + 1 + n] == [items[k]] + items[k + 1..k + 1 + n];
  }

  /** And conversely. */
  lemma {:induction false} FlatSpans(items: seq<Item>, k: nat, f: Forest)
    requires Proper(f) && k + f.Len() <= |items| && items[k..k + f.Len()] == Flat(f)
    ensures Spans(items, k, f)
    decreases f
  {
    hide Spans, Flat;
    match f
    case Empty => NothingSpans(items, k);
    case Leaf(it, rest) =>
      FlatLeafAt(items, k, it, rest);
      FlatSpans(items, k + 1, rest);
      MakeLeaf(items, k, rest);
    case Node(b, body, rest) =>
      NodeAt(items, k, b, body, rest);
      hide Forest.Len;
      FlatSpans(items, k + 1, body);
      FlatSpans(items, k + 2 + body.Len(), rest);
      MakeNode(items, k, body, rest);
  }

  lemma {:induction false} FlatLeafAt(items: seq<Item>, k: nat, it: Item, rest: Forest)
    requires k + Leaf(it, rest).Len() <= |items| && items[k..k + Leaf(it, rest).Len()] == Flat(Leaf(it, rest))
    ensures k + 1 + rest.Len() <= |items| && items[k] == it && items[k + 1..k + 1 + rest.Len()] == Flat(rest)
  {
    LeafAt(items, k, it, Flat(rest));
  }

  lemma LeafAt(items: seq<Item>, k: nat, it: Item, rest: seq<Item>)
    requires k + 1 + |rest| <= |items| && items[k..k + 1 + |rest|] == [it] + rest
    ensures items[k] == it && items[k + 1..k + 1 + |rest|] == rest
  {
    var w := items[k..k + 1 + |rest|];
    assert items[k] == w[0] && items[k + 1..k + 1 + |rest|] == w[1..];
  }

  lemma {:induction false} NodeAt(items: seq<Item>, k: nat, b: Item, body: Forest, rest: Forest)
    requires k + Node(b, body, rest).Len() <= |items|
    requires items[k..k + Node(b, body, rest).Len()] == Flat(Node(b, body, rest))
    ensures var e := k + 2 + body.Len();
            && e + rest.Len() <= |items| && items[k] == b && items[e - 1] == EndNode
            && items[k + 1..e - 1] == Flat(body) && items[e..e + rest.Len()] == Flat(rest)
  {
    assert Node(b, body, rest).Len() == 2 + body.Len() + rest.Len();
    hide Forest.Len;
    TakeApart(items, k, b, Flat(body), Flat(rest));
  }

  lemma TakeApart(items: seq<Item>, k: nat, b: Item, body: seq<Item>, rest: seq<Item>)
    requires k + 2 + |body| + |rest| <= |items|
    requires items[k..k + 2 + |body| + |rest|] == [b] + body + [EndNode] + rest
    ensures items[k] == b && items[k + 1..k + 1 + |body|] == body && items[k + 1 + |body|] == EndNode
    ensures items[k + 2 + |body|..k + 2 + |body| + |rest|] == rest
  {
    var n, e := |body|, k + 2 + |body| + |rest|;
    var w := items[k..e];
    assert items[k] == w[0] && items[k + 1 + n] == w[1 + n];
    SliceOfSlice(items, k, e, 1, 1 + n);
    SliceOfSlice(items, k, e, 2 + n, 2 + n + |rest|);
    assert w[1..1 + n] == body && w[2 + n..2 + n + |rest|] == rest;
  }

  lemma {:induction false} FlatJoin(f: Forest, g: Forest)
    ensures Flat(Join(f, g)) == Flat(f) + Flat(g) && (Proper(f) && Proper(g) ==> Proper(Join(f, g)))
  {
    match f
    case Empty =>
    case Leaf(it, rest) =>
      FlatJoin(rest, g);
      assert [it] + (Flat(rest) + Flat(g)) == [it] + Flat(rest) + Flat(g);
    case Node(b, body, rest) =>
      FlatJoin(rest, g);
      var front := [b] + Flat(body) + [EndNode];
      assert front + (Flat(rest) + Flat(g)) == front + Flat(rest) + Flat(g);
  }

  lemma {:induction false} FlatDrop(f: Forest, d: nat)
    requires Fits(f, 0, d)
    ensures d <= f.Len() && Flat(Drop(f, d)) == Flat(f)[d..]
    decreases f
  {
    hide Flat;
    if d == 0 {
      assert Flat(f)[0..] == Flat(f);
    } else {
      match f
      case Leaf(it, rest) =>
        FlatDrop(rest, d - 1);
        FlatLeafRest(it, rest);
        TailOf([it], Flat(rest), d);
      case Node(b, body, rest) =>
        FlatDrop(rest, d - 2 - body.Len());
        FlatNodeRest(b, body, rest);
        TailOf([b] + Flat(body) + [EndNode], Flat(rest), d);
    }
  }

  lemma FlatLeafRest(it: Item, rest: Forest)
    ensures Flat(Leaf(it, rest)) == [it] + Flat(rest)
  {
  }

  lemma {:induction false} DropProper(f: Forest, d: nat)
    requires Fits(f, 0, d) && Proper(f)
    ensures Proper(Drop(f, d))
    decreases f
  {
    if d > 0 {
      match f
      case Leaf(_, rest) => DropProper(rest, d - 1);
      case Node(_, body, rest) => DropProper(rest, d - 2 - body.Len());
    }
  }

  lemma TailOf(a: seq<Item>, b: seq<Item>, d: nat)
    requires |a| <= d <= |a| + |b|
    ensures (a + b)[d..] == b[d - |a|..]
  {
  }

  /** In a concatenation, a replacement happens in one part. */
  lemma ReplaceInside(a: seq<Item>, b: seq<Item>, c: seq<Item>, n: nat, d: nat, mid: seq<Item>)
    requires |a| <= n && n + d <= |a| + |b|
    ensures Replace(a + b + c, n, n + d, mid) == a + Replace(b, n - |a|, n - |a| + d, mid) + c
  {
    var s := a + b + c;
    assert s[..n] == a + b[..n - |a|];
    assert s[n + d..] == b[n - |a| + d..] + c;
    assert a + b[..n - |a|] + mid + (b[n - |a| + d..] + c) == a + (b[..n - |a|] + mid + b[n - |a| + d..]) + c;
  }

  lemma NoTail(a: seq<Item>)
    ensures a + [] == a
  {
  }

  lemma ReplaceTail(a: seq<Item>, b: seq<Item>, n: nat, d: nat, mid: seq<Item>)
    requires |a| <= n && n + d <= |a| + |b|
    ensures Replace(a + b, n, n + d, mid) == a + Replace(b, n - |a|, n - |a| + d, mid)
  {
    ReplaceInside(a, b, [], n, d, mid);
    NoTail(a + b);
    NoTail(a + Replace(b, n - |a|, n - |a| + d, mid));
  }

  lemma FlatNodeBody(b: Item, body: Forest, rest: Forest)
    ensures Flat(Node(b, body, rest)) == [b] + Flat(body) + ([EndNode] + Flat(rest))
  {
  }

  lemma FlatNodeRest(b: Item, body: Forest, rest: Forest)
    ensures Flat(Node(b, body, rest)) == ([b] + Flat(body) + [EndNode]) + Flat(rest)
  {
  }

  lemma {:induction false} FitsInside(f: Forest, n: nat, d: nat)
    requires Fits(f, n, d)
    ensures n + d <= f.Len()
    ensures f.Leaf? ==> f.Len() == 1 + f.rest.Len()
    ensures f.Node? ==> f.Len() == 2 + f.body.Len() + f.rest.Len()
    decreases f
  {
    match f
    case Empty =>
    case Leaf(_, rest) =>
      if n > 0 {
        FitsInside(rest, n - 1, d);
      } else if d > 0 {
        FitsInside(rest, 0, d - 1);
      }
    case Node(_, body, rest) =>
      if n == 0 {
        if d > 0 {
          FitsInside(rest, 0, d - 2 - body.Len());
        }
      } else if n <= 1 + body.Len() {
        FitsInside(body, n - 1, d);
      } else {
        FitsInside(rest, n - 2 - body.Len(), d);
      }
  }

  /** Grafting the tree replaces its items. */
  lemma {:induction false} FlatGraft(f: Forest, n: nat, d: nat, m: Forest)
    requires Fits(f, n, d)
    ensures n + d <= f.Len() && Flat(Graft(f, n, d, m)) == Replace(Flat(f), n, n + d, Flat(m))
    decreases f
  {
    hide Flat, Replace, Forest.Len;
    FitsInside(f, n, d);
    if n == 0 {
      GraftedFront(f, d, m);
    } else {
      match f
      case Leaf(it, rest) =>
        FlatGraft(rest, n - 1, d, m);
        GraftedLeaf(it, rest, n, d, m, Graft(rest, n - 1, d, m));
      case Node(b, body, rest) =>
        if n <= 1 + body.Len() {
          FlatGraft(body, n - 1, d, m);
          GraftedBody(b, body, rest, n, d, m, Graft(body, n - 1, d, m));
        } else {
          FlatGraft(rest, n - 2 - body.Len(), d, m);
          GraftedRest(b, body, rest, n, d, m, Graft(rest, n - 2 - body.Len(), d, m));
        }
    }
  }

  lemma {:induction false} GraftedFront(f: Forest, d: nat, m: Forest)
    requires Fits(f, 0, d)
    ensures d <= f.Len() && Flat(Graft(f, 0, d, m)) == Replace(Flat(f), 0, d, Flat(m))
  {
    FlatDrop(f, d);
    FlatJoin(m, Drop(f, d));
    assert Graft(f, 0, d, m) == Join(m, Drop(f, d));
    hide Flat, Graft, Fits, Drop, Join;
    assert Flat(f)[..0] + Flat(m) == Flat(m);
  }

  lemma {:induction false} GraftedLeaf(it: Item, rest: Forest, n: nat, d: nat, m: Forest, rest': Forest)
    requires 1 <= n && n - 1 + d <= rest.Len() && Flat(rest') == Replace(Flat(rest), n - 1, n - 1 + d, Flat(m))
    ensures n + d <= Leaf(it, rest).Len()
    ensures Flat(Leaf(it, rest')) == Replace(Flat(Leaf(it, rest)), n, n + d, Flat(m))
  {
    hide Replace;
    ReplaceTail([it], Flat(rest), n, d, Flat(m));
  }

  lemma Middle(w: seq<Item>, a: seq<Item>, b: seq<Item>, c: seq<Item>, b': seq<Item>, n: nat, d: nat, mid: seq<Item>)
    requires w == a + b + c && |a| <= n && n + d <= |a| + |b| && b' == Replace(b, n - |a|, n - |a| + d, mid)
    ensures Replace(w, n, n + d, mid) == a + b' + c
  {
    ReplaceInside(a, b, c, n, d, mid);
  }

  lemma {:induction false} GraftedBody(b: Item, body: Forest, rest: Forest, n: nat, d: nat, m: Forest, body': Forest)
    requires 1 <= n && n - 1 + d <= body.Len() && Flat(body') == Replace(Flat(body), n - 1, n - 1 + d, Flat(m))
    ensures n + d <= Node(b, body, rest).Len()
    ensures Flat(Node(b, body', rest)) == Replace(Flat(Node(b, body, rest)), n, n + d, Flat(m))
  {
    hide Flat, Replace;
    assert n + d <= Node(b, body, rest).Len();
    hide Forest.Len;
    FlatNodeBody(b, body, rest);
    Middle(Flat(Node(b, body, rest)), [b], Flat(body), [EndNode] + Flat(rest), Flat(body'), n, d, Flat(m));
    FlatNodeBody(b, body', rest);
  }

  lemma {:induction false} GraftedRest(b: Item, body: Forest, rest: Forest, n: nat, d: nat, m: Forest, rest': Forest)
    requires var k := n - 2 - body.Len();
             k >= 0 && k + d <= rest.Len() && Flat(rest') == Replace(Flat(rest), k, k + d, Flat(m))
    ensures n + d <= Node(b, body, rest).Len()
    ensures Flat(Node(b, body, rest')) == Replace(Flat(Node(b, body, rest)), n, n + d, Flat(m))
  {
    hide Flat, Replace;
    assert n + d <= Node(b, body, rest).Len();
    hide Forest.Len;
    FlatNodeRest(b, body, rest);
    FlatNodeRest(b, body, rest');
    var front := [b] + Flat(body) + [EndNode];
    assert |front| == 2 + body.Len();
    ReplaceTail(front, Flat(rest), n, d, Flat(m));
  }

  lemma {:induction false} GraftProperFront(f: Forest, d: nat, m: Forest)
    requires Fits(f, 0, d) && Proper(f) && Proper(m)
    ensures Proper(Graft(f, 0, d, m))
  {
    hide Flat, Fits, Forest.Len;
    DropProper(f, d);
    FlatJoin(m, Drop(f, d));
    assert Graft(f, 0, d, m) == Join(m, Drop(f, d));
  }

  lemma {:induction false} GraftProper(f: Forest, n: nat, d: nat, m: Forest)
    requires Fits(f, n, d) && Proper(f) && Proper(m)
    ensures Proper(Graft(f, n, d, m))
    decreases f
  {
    hide Flat, Forest.Len;
    FitsInside(f, n, d);
    if n == 0 {
      GraftProperFront(f, d, m);
    } else {
      match f
      case Leaf(_, rest) => GraftProper(rest, n - 1, d, m);
      case Node(_, body, rest) =>
        if n <= 1 + body.Len() {
          GraftProper(body, n - 1, d, m);
        } else {
          GraftProper(rest, n - 2 - body.Len(), d, m);
        }
    }
  }

  // ----- where subtrees stand -----

  /** The items up to an end tag spell one forest only. */
  lemma {:induction false} ForestUnique(items: seq<Item>, k: nat, f: Forest, g: Forest)
    requires Spans(items, k, f) && k + f.Len() < |items| && items[k + f.Len()] == EndNode
    requires Spans(items, k, g) && k + g.Len() < |items| && items[k + g.Len()] == EndNode
    ensures f == g
    decreases f
  {
    hide Spans, Forest.Len;
    Parts(items, k, f);
    Parts(items, k, g);
    match f
    case Empty =>
    case Leaf(_, rest) => ForestUnique(items, k + 1, rest, g.rest);
    case Node(_, body, rest) =>
      ForestUnique(items, k + 1, body, g.body);
      ForestUnique(items, k + 2 + body.Len(), rest, g.rest);
  }

  /** So a blob determines the tree under each of its nodes. */
  lemma {:induction false} NodeUnique(items: seq<Item>, i: nat, f: Forest, g: Forest)
    requires IsNode(items, i, f) && IsNode(items, i, g)
    ensures f == g
  {
    ForestUnique(items, i + 1, f, g);
  }

  /** The items of a forest inside another one are whole subtrees of it. */
  lemma {:induction false} InsideFits(items: seq<Item>, k: nat, f: Forest, p: nat, m: Forest)
    requires Spans(items, k, f) && k + f.Len() < |items| && items[k + f.Len()] == EndNode
    requires k <= p <= k + f.Len() && Spans(items, p, m)
    ensures Fits(f, p - k, m.Len())
    decreases f
  {
    hide Spans, Forest.Len;
    Parts(items, k, f);
    Parts(items, p, m);
    match f
    case Empty =>
    case Leaf(_, rest) =>
      if p > k {
        InsideFits(items, k + 1, rest, p, m);
      } else if m.Leaf? {
        InsideFits(items, k + 1, rest, k + 1, m.rest);
      }
    case Node(_, body, rest) =>
      var e := k + 2 + body.Len();
      if p >= e {
        InsideFits(items, e, rest, p, m);
      } else if p > k {
        InsideFits(items, k + 1, body, p, m);
      } else if m.Node? {
        ForestUnique(items, k + 1, body, m.body);
        InsideFits(items, e, rest, e, m.rest);
      }
  }

  // ----- edits -----

  /** Replacing, in the tree under node `i`, the items of the subtrees `m` by those of `m'` grafts
      `m'` in their place, and the tree under `i` is then exactly that graft. */
  lemma {:induction false} EditGrafts(items: seq<Item>, i: nat, f: Forest, p: nat, m: Forest, m': Forest)
    requires IsNode(items, i, f) && i + 1 <= p <= i + 1 + f.Len() && Spans(items, p, m) && Proper(m')
    ensures Fits(f, p - (i + 1), m.Len()) && p + m.Len() <= |items|
    ensures IsNode(Replace(items, p, p + m.Len(), Flat(m')), i, Graft(f, p - (i + 1), m.Len(), m'))
  {
    hide Spans, Graft, Fits, Flat, Proper, Forest.Len, Replace;
    var n, d := p - (i + 1), m.Len();
    InsideFits(items, i + 1, f, p, m);
    FlatGraft(f, n, d, m');
    SpansFlat(items, i + 1, f);
    SpansProper(items, i + 1, f);
    GraftProper(f, n, d, m');
    var g := Graft(f, n, d, m');
    NodeReplaced(items, i, i + 1 + f.Len(), Flat(f), p, d, Flat(m'), Flat(g));
    FlatSpans(Replace(items, p, p + d, Flat(m')), i + 1, g);
  }

  lemma NodeReplaced(items: seq<Item>, i: nat, e: nat, w: seq<Item>, p: nat, d: nat, mid: seq<Item>, w': seq<Item>)
    requires i < e < |items| && w == items[i + 1..e] && i < p && p + d <= e && items[e] == EndNode
    requires w' == Replace(w, p - (i + 1), p - (i + 1) + d, mid)
    ensures var other := Replace(items, p, p + d, mid);
            && i + 1 + |w'| < |other| && other[i] == items[i]
            && other[i + 1..i + 1 + |w'|] == w' && other[i + 1 + |w'|] == EndNode
  {
    var a, c := items[..i + 1], items[e..];
    assert items == a + w + c;
    ReplaceInside(a, w, c, p, d, mid);
    var other := Replace(items, p, p + d, mid);
    hide Replace;
    assert other == a + w' + c;
    assert other[i] == a[i] && other[i + 1..i + 1 + |w'|] == w' && other[i + 1 + |w'|] == c[0];
  }
}
