/** Which trees can be navigated by paths: exactly when the path of a node leads back to it. */
module FdtNames {
  import opened Wrappers
  import opened FdtFormat
  import opened FdtTraverse
  import opened FdtTree
  import opened FdtTreeEdit
  import opened FdtPath

  // ----- one node -----

  /** A child found by name is one level down, and its parent is its ancestor. */
  lemma {:induction false} NamedBelow(items: seq<Item>, k: nat, depth: nat, key: seq<byte>)
    requires k <= |items| && ChildNamed(items, k, depth, key).Some?
    ensures var c := ChildNamed(items, k, depth, key).value;
            && Depth(items, c) == Depth(items, k) - depth
            && forall m :: k <= m <= c ==> Depth(items, m) >= Depth(items, k) - depth
    decreases |items| - k
  {
    hide NameMatches;
    match items[k]
    case Begin(name, _) =>
      if !(depth == 0 && ChildNamed(items, k, depth, key) == Some(k)) {
        NamedBelow(items, k + 1, depth + 1, key);
      }
    case EndNode => NamedBelow(items, k + 1, depth - 1, key);
    case Prop(_, _, _) => NamedBelow(items, k + 1, depth, key);
    case Nop => NamedBelow(items, k + 1, depth, key);
  }

  /** Following the first `d` names of a path leads at most `d` levels down. */
  lemma {:induction false} JoinedDepth(items: seq<Item>, at: nat, d: nat)
    requires InTree(items, at) && Joined(items, at, 0) == [] && NoSlashes(items, at)
    ensures var w := Walk(items, 0, Joined(items, at, d)); w.Some? ==> Depth(items, w.value) <= d
  {
    hide Walk, ChildNamed, LastAt, NameAtDepth, NoSlashes;
    if d == 0 {
      WalkNothing(items);
    } else {
      JoinedDepth(items, at, d - 1);
      var w := Walk(items, 0, Joined(items, at, d - 1));
      var name := NameAtDepth(items, at, d);
      WalkSplit(items, 0, Joined(items, at, d - 1), name);
      if w.Some? {
        WalkOne(items, w.value, at, name, d);
      }
    }
  }

  /** Following one name, which may be empty. */
  lemma WalkOne(items: seq<Item>, w: nat, at: nat, name: seq<byte>, d: nat)
    requires w < |items| && items[w].Begin? && at < |items| && NoSlashes(items, at) && name == NameAtDepth(items, at, d)
    ensures name == [] ==> Walk(items, w, name) == Some(w)
    ensures name != [] ==> Walk(items, w, name) == ChildNamed(items, w + 1, 0, name)
    ensures Walk(items, w, name).Some? ==> Depth(items, Walk(items, w, name).value) <= Depth(items, w) + 1
  {
    NameHasNoSlash(items, at, d);
    if name != [] {
      WalkName(items, w, name);
      if ChildNamed(items, w + 1, 0, name).Some? {
        NamedBelow(items, w + 1, 0, name);
      }
    }
  }

  /** If following the first `d` names leads to the ancestor at depth `d`, each step found its own. */
  lemma {:induction false} StepsFound(items: seq<Item>, at: nat, d: nat)
    requires InTree(items, at) && d <= Depth(items, at) && Joined(items, at, 0) == [] && NoSlashes(items, at)
    requires LastAt(items, at, d).Some? && Walk(items, 0, Joined(items, at, d)) == LastAt(items, at, d)
    ensures forall e {:trigger StepFound(items, at, e)} :: 0 < e <= d ==> StepFound(items, at, e)
  {
    hide Walk, Joined, LastAt, NoSlashes, StepFound;
    if d > 0 {
      LastStepFound(items, at, d);
      StepsFound(items, at, d - 1);
    }
  }

  lemma {:induction false} LastStepFound(items: seq<Item>, at: nat, d: nat)
    requires InTree(items, at) && 0 < d <= Depth(items, at) && Joined(items, at, 0) == [] && NoSlashes(items, at)
    requires LastAt(items, at, d).Some? && Walk(items, 0, Joined(items, at, d)) == LastAt(items, at, d)
    ensures StepFound(items, at, d)
    ensures LastAt(items, at, d - 1).Some? && Walk(items, 0, Joined(items, at, d - 1)) == LastAt(items, at, d - 1)
  {
    hide Walk, ChildNamed, NameMatches, LastAt, NoSlashes;
    var w := Walk(items, 0, Joined(items, at, d - 1));
    var name := NameAtDepth(items, at, d);
    WalkSplit(items, 0, Joined(items, at, d - 1), name);
    WalkOne(items, w.value, at, name, d);
    JoinedDepth(items, at, d - 1);
    hide Joined, InTree, Depth, Ancestor;
    NamedParent(items, at, d, w.value, name);
    NameHasNoSlash(items, at, d);
  }

  /** The node whose child of that name is the ancestor at depth `d` is the one at depth `d - 1`. */
  lemma {:induction false} NamedParent(items: seq<Item>, at: nat, d: nat, w: nat, name: seq<byte>)
    requires InTree(items, at) && 0 < d <= Depth(items, at) && w < |items| && items[w].Begin?
    requires LastAt(items, at, d).Some? && ChildNamed(items, w + 1, 0, name) == LastAt(items, at, d)
    ensures LastAt(items, at, d - 1) == Some(w)
  {
    hide ChildNamed, NameMatches, LastAt;
    NamedBelow(items, w + 1, 0, name);
    LastAtIsAncestor(items, at, d - 1);
    LastAtIsAncestor(items, at, d);
    ParentIs(items, at, d, w, LastAt(items, at, d).value);
  }

  /** A node that is an ancestor of an ancestor. */
  lemma ParentIs(items: seq<Item>, at: nat, d: nat, w: nat, c: nat)
    requires d > 0 && InTree(items, at) && Ancestor(items, at, d, c) && w < c && items[w].Begin?
    requires LastAt(items, at, d - 1).Some? && Ancestor(items, at, d - 1, LastAt(items, at, d - 1).value)
    requires Depth(items, w + 1) == Depth(items, c) && forall m :: w + 1 <= m <= c ==> Depth(items, m) >= Depth(items, c)
    ensures LastAt(items, at, d - 1) == Some(w)
  {
    hide LastAt;
    assert Depth(items, w + 1) == Depth(items, w) + 1;
    AncestorUnique(items, at, d - 1, w, LastAt(items, at, d - 1).value);
  }

  /** The path of a node leads back to it if and only if every step on the way is found by its name. */
  lemma PathLeadsBackExactly(items: seq<Item>, at: nat)
    requires InTree(items, at) && items[0].name == [] && NoSlashes(items, at)
    ensures Depth(items, at) >= 0
    ensures Walk(items, 0, PathOf(items, at)) == Some(at) <==> Findable(items, at)
  {
    hide Walk, ChildNamed, LastAt, NoSlashes;
    var d := Depth(items, at);
    assert Depth(items, 0) == 0;
    LastAtIsAncestor(items, at, 0);
    RootIsLast(items, at);
    LastIsSelf(items, at);
    if Findable(items, at) {
      PathLeadsBack(items, at);
    }
    if d > 0 && Walk(items, 0, PathOf(items, at)) == Some(at) {
      assert NameAtDepth(items, at, 0) == [];
      FullIsJoined(items, at, d);
      JoinedStarts(items, at, d);
      assert PathOf(items, at) == Joined(items, at, d);
      StepsFound(items, at, d);
    }
  }

  // ----- a whole tree -----

  /** Every child of the node has a name, and one that the name of no earlier child matches. */
  ghost predicate ChildrenTold(items: seq<Item>, i: nat, g: Forest) {
    var c := Children(g, i + 1);
    forall j {:trigger c[j]} :: 0 <= j < |c| ==> NameOf(items, c[j]) != [] && NoneBefore(items, c, j, NameOf(items, c[j]))
  }

  /** So have the children of all nodes of the tree. */
  ghost predicate WellNamed(items: seq<Item>, f: Forest) {
    forall i, g {:trigger ChildrenTold(items, i, g)} :: 0 <= i < 1 + f.Len() && IsNode(items, i, g) ==> ChildrenTold(items, i, g)
  }

  /** Each node of a forest has its own body inside it. */
  lemma {:induction false} NodeInside(items: seq<Item>, k: nat, f: Forest, c: nat) returns (g: Forest)
    requires Spans(items, k, f) && k <= c < k + f.Len() && items[c].Begin?
    ensures IsNode(items, c, g) && c + 2 + g.Len() <= k + f.Len()
    decreases f
  {
    match f
    case Leaf(_, rest) => g := NodeInside(items, k + 1, rest, c);
    case Node(_, body, rest) =>
      if c == k {
        g := body;
      } else if c < k + 1 + body.Len() {
        g := NodeInside(items, k + 1, body, c);
      } else {
        g := NodeInside(items, k + 2 + body.Len(), rest, c);
      }
  }

  /** A node of the forest that is not deeper than the forest is one of its direct nodes. */
  lemma {:induction false} ChildInside(items: seq<Item>, k: nat, f: Forest, c: nat) returns (j: nat)
    requires Spans(items, k, f) && k <= c < k + f.Len() && items[c].Begin? && Depth(items, c) == Depth(items, k)
    ensures j < |Children(f, k)| && Children(f, k)[j] == c
    decreases f
  {
    match f
    case Leaf(_, rest) =>
      assert Depth(items, k + 1) == Depth(items, k);
      j := ChildInside(items, k + 1, rest, c);
    case Node(_, body, rest) =>
      if c == k {
        j := 0;
      } else {
        DepthOverForest(items, k + 1, body);
        assert Depth(items, k + 1) == Depth(items, k) + 1;
        assert Depth(items, k + 2 + body.Len()) == Depth(items, k);
        var i := ChildInside(items, k + 2 + body.Len(), rest, c);
        j := i + 1;
      }
  }

  lemma TreeNode(items: seq<Item>, f: Forest, at: nat)
    requires IsNode(items, 0, f) && at < 1 + f.Len() && items[at].Begin?
    ensures InTree(items, at) && Depth(items, at) >= 0
  {
    DepthOverForest(items, 1, f);
    assert Depth(items, 0) == 0 && Depth(items, 1) == 1;
  }

  /** The ancestor at depth `d` is a child of the one above it. */
  lemma AncestorIsChild(items: seq<Item>, f: Forest, at: nat, d: nat) returns (p: nat, g: Forest, j: nat)
    requires IsNode(items, 0, f) && at < 1 + f.Len() && items[at].Begin?
    requires 0 < d <= Depth(items, at)
    ensures LastAt(items, at, d - 1) == Some(p) && p < 1 + f.Len() && IsNode(items, p, g)
    ensures j < |Children(g, p + 1)| && LastAt(items, at, d) == Some(Children(g, p + 1)[j])
  {
    hide LastAt, Spans, Children;
    TreeNode(items, f, at);
    LastAtIsAncestor(items, at, d - 1);
    LastAtIsAncestor(items, at, d);
    p := LastAt(items, at, d - 1).value;
    var c := LastAt(items, at, d).value;
    if p == 0 {
      g := f;
    } else {
      g := NodeInside(items, 1, f, p);
    }
    var e := p + 1 + g.Len();
    DepthOverForest(items, p + 1, g);
    assert Depth(items, p + 1) == d && Depth(items, e + 1) == d - 1;
    j := ChildInside(items, p + 1, g, c);
  }

  lemma {:induction false} ToldIsFindable(items: seq<Item>, f: Forest, at: nat)
    requires IsNode(items, 0, f) && items[0].name == [] && WellNamed(items, f)
    requires at < 1 + f.Len() && items[at].Begin? && NoSlashes(items, at)
    ensures Findable(items, at)
  {
    hide LastAt, Spans, Children, ChildNamed, NameMatches, NoneBefore, Depth;
    TreeNode(items, f, at);
    forall d | 0 < d <= Depth(items, at) ensures StepFound(items, at, d) {
      var p, g, j := AncestorIsChild(items, f, at, d);
      assert ChildrenTold(items, p, g);
      FoundByOwnName(items, p, g, j);
    }
  }

  lemma {:induction false} FindableIsTold(items: seq<Item>, f: Forest, i: nat, g: Forest, j: nat)
    requires IsNode(items, 0, f) && i < 1 + f.Len() && IsNode(items, i, g) && j < |Children(g, i + 1)|
    ensures var c := Children(g, i + 1)[j]; c < |items| && items[c].Begin?
    ensures var c := Children(g, i + 1)[j];
            Findable(items, c) ==> NameOf(items, c) != [] && NoneBefore(items, Children(g, i + 1), j, NameOf(items, c))
  {
    hide LastAt, Spans, Children, ChildNamed, NameMatches, NoneBefore;
    var c := Children(g, i + 1)[j];
    TreeNode(items, f, i);
    ParentOfChild(items, i, g, j);
    ChildInForest(items, i + 1, g, j);
    FoundByOwnName(items, i, g, j);
    if Findable(items, c) {
      var d := Depth(items, c);
      LastAtIsAncestor(items, c, d - 1);
      LastIsSelf(items, c);
      AncestorUnique(items, c, d - 1, i, LastAt(items, c, d - 1).value);
      assert StepFound(items, c, d);
    }
  }

  /** The children of a node of the tree are nodes of the tree. */
  lemma {:induction false} ChildInTree(items: seq<Item>, f: Forest, i: nat, g: Forest, j: nat)
    requires IsNode(items, 0, f) && i < 1 + f.Len() && IsNode(items, i, g) && j < |Children(g, i + 1)|
    ensures Children(g, i + 1)[j] < 1 + f.Len()
  {
    hide Spans, Children, Depth;
    ChildInForest(items, i + 1, g, j);
    if i == 0 {
      NodeUnique(items, 0, f, g);
    } else {
      var g' := NodeInside(items, 1, f, i);
      NodeUnique(items, i, g, g');
    }
  }

  ghost predicate LeadsBack(items: seq<Item>, at: nat) {
    InTree(items, at) && Depth(items, at) >= 0 && Walk(items, 0, PathOf(items, at)) == Some(at)
  }

  /** In a tree with an unnamed root and no slash in a name, the path of every node leads back to it if
      and only if every other node has a name that the name of no earlier sibling matches. */
  lemma {:induction false} AllPathsLeadBack(items: seq<Item>, f: Forest)
    requires IsNode(items, 0, f) && items[0].name == [] && NoSlashes(items, |items|)
    ensures (forall at :: 0 <= at < 1 + f.Len() && items[at].Begin? ==> LeadsBack(items, at)) <==> WellNamed(items, f)
  {
    hide Spans, Children, Depth, InTree, Findable, NoneBefore, NameOf, Walk, PathOf;
    forall at | 0 <= at < 1 + f.Len() && items[at].Begin?
      ensures LeadsBack(items, at) <==> Findable(items, at)
      ensures WellNamed(items, f) ==> Findable(items, at)
    {
      TreeNode(items, f, at);
      SlashesBefore(items, at, |items|);
      PathLeadsBackExactly(items, at);
      if WellNamed(items, f) {
        ToldIsFindable(items, f, at);
      }
    }
    if forall at :: 0 <= at < 1 + f.Len() && items[at].Begin? ==> LeadsBack(items, at) {
      forall i, g | 0 <= i < 1 + f.Len() && IsNode(items, i, g) ensures ChildrenTold(items, i, g) {
        var c := Children(g, i + 1);
        forall j | 0 <= j < |c| ensures NameOf(items, c[j]) != [] && NoneBefore(items, c, j, NameOf(items, c[j])) {
          ChildInTree(items, f, i, g, j);
          FindableIsTold(items, f, i, g, j);
          assert LeadsBack(items, c[j]);
        }
      }
    }
  }

  // ----- an example -----

  const DIGIT_1: byte := 49

  /** A root with the children `a@1` and, behind it, `a`. */
  function Siblings(): seq<Item> {
    [Begin([], [0, 0, 0]), Begin([LETTER_A, AT_SIGN, DIGIT_1], []), EndNode, Begin([LETTER_A], [0, 0]), EndNode, EndNode]
  }

  lemma SiblingDepths()
    ensures var items := Siblings();
            Depth(items, 0) == 0 && Depth(items, 1) == 1 && Depth(items, 2) == 2 && Depth(items, 3) == 1
  {
    var items := Siblings();
    assert Depth(items, 0) == 0;
    assert Depth(items, 1) == 1;
    assert Depth(items, 2) == 2;
  }

  lemma SiblingAncestors()
    ensures LastAt(Siblings(), 3, 1) == Some(3) && LastAt(Siblings(), 3, 0) == Some(0)
  {
    SiblingDepths();
    var items := Siblings();
    hide Depth;
    assert LastAt(items, 0, 0) == Some(0);
    assert LastAt(items, 1, 0) == Some(0);
    assert LastAt(items, 2, 0) == Some(0);
  }

  lemma SiblingPath()
    ensures Depth(Siblings(), 3) == 1 && PathOf(Siblings(), 3) == [SLASH, LETTER_A]
  {
    SiblingDepths();
    SiblingAncestors();
    var items := Siblings();
    hide Depth, LastAt;
    assert Full(items, 3, 0) == [];
    assert Full(items, 3, 1) == [SLASH];
    assert Full(items, 3, 2) == [SLASH, LETTER_A, SLASH];
  }

  /** The path of `a` leads to `a@1`. */
  lemma PathLeadsElsewhere()
    ensures forall it :: it in Siblings() ==> it.Ok()
    ensures InTree(Siblings(), 3) && Depth(Siblings(), 3) >= 0
    ensures PathOf(Siblings(), 3) == [SLASH, LETTER_A] && Walk(Siblings(), 0, PathOf(Siblings(), 3)) == Some(1)
  {
    SiblingDepths();
    SiblingPath();
    hide Depth, PathOf, Walk;
    var items, path := Siblings(), [SLASH, LETTER_A];
    assert path == [] + [SLASH] + [LETTER_A];
    WalkNothing(items);
    WalkSplit(items, 0, [], [LETTER_A]);
    WalkName(items, 0, [LETTER_A]);
    assert NameMatches(items[1].name, [LETTER_A]);
  }
}
