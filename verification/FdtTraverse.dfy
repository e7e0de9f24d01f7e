/** Traversal of a structure block as a stream of items, without offsets. */
module FdtTraverse {
  import opened Wrappers
  import opened FdtFormat

  /** Where a forward search stops: at a node's tag, behind the end tag that leaves the starting level,
      or at FDT_END. */
  datatype Step =
    | Found(at: nat, depth: int)
    | Closed(at: nat, depth: int)
    | Missing(depth: int)
  {
    /** What `fdt_next_node` returns for it. */
    ghost function Code(items: seq<Item>): int
      requires !Missing? ==> at <= |items|
    {
      match this
      case Found(at, _) => Off(items, at)
      case Closed(at, _) => Off(items, at)
      case Missing(_) => -FDT_ERR_NOTFOUND
    }
  }

  /** The search of `fdt_next_node` from item `k`, tracking depth. */
  function Scan(items: seq<Item>, k: nat, depth: int): (r: Step)
    requires k <= |items|
    ensures r.Found? ==> k <= r.at < |items| && items[r.at].Begin?
    ensures r.Closed? ==> k < r.at <= |items| && r.depth < 0
    ensures r.Found? && depth >= 0 ==> r.depth >= 1
    decreases |items| - k
  {
    if k == |items| then Missing(depth)
    else match items[k]
      case Begin(_, _) => Found(k, depth + 1)
      case EndNode => if depth - 1 < 0 then Closed(k + 1, depth - 1) else Scan(items, k + 1, depth - 1)
      case Prop(_, _, _) => Scan(items, k + 1, depth)
      case Nop => Scan(items, k + 1, depth)
  }

  /** The item behind the end tag that closes the level `depth` below the one at `k`. */
  function CloseOf(items: seq<Item>, k: nat, depth: nat): (r: Option<nat>)
    requires k <= |items|
    ensures r.Some? ==> k < r.value <= |items|
    decreases |items| - k
  {
    if k == |items| then None
    else match items[k]
      case Begin(_, _) => CloseOf(items, k + 1, depth + 1)
      case EndNode => if depth == 0 then Some(k + 1) else CloseOf(items, k + 1, depth - 1)
      case Prop(_, _, _) => CloseOf(items, k + 1, depth)
      case Nop => CloseOf(items, k + 1, depth)
  }

  /** Repeating the search of `fdt_next_node` until it leaves the level finds the closing tag. */
  lemma {:induction false} ScanTowardsClose(items: seq<Item>, k: nat, depth: nat)
    requires k <= |items|
    ensures var s := Scan(items, k, depth);
            && (s.Found? ==> CloseOf(items, k, depth) == CloseOf(items, s.at + 1, s.depth))
            && (s.Closed? ==> CloseOf(items, k, depth) == Some(s.at))
            && (s.Missing? ==> CloseOf(items, k, depth) == None)
    decreases |items| - k
  {
    if k < |items| && !items[k].Begin? {
      if !items[k].EndNode? {
        ScanTowardsClose(items, k + 1, depth);
      } else if depth > 0 {
        ScanTowardsClose(items, k + 1, depth - 1);
      }
    }
  }

  /** The next node that starts at depth 1, before the level is left: what `fdt_next_subnode` and the
      search by name look for, from item `k` with current depth `depth`. */
  function NextChild(items: seq<Item>, k: nat, depth: nat): (r: Option<nat>)
    requires k <= |items|
    ensures r.Some? ==> k <= r.value < |items| && items[r.value].Begin?
    decreases |items| - k
  {
    if k == |items| then None
    else match items[k]
      case Begin(_, _) => if depth == 0 then Some(k) else NextChild(items, k + 1, depth + 1)
      case EndNode => if depth == 0 then None else NextChild(items, k + 1, depth - 1)
      case Prop(_, _, _) => NextChild(items, k + 1, depth)
      case Nop => NextChild(items, k + 1, depth)
  }

  lemma {:induction false} ScanTowardsChild(items: seq<Item>, k: nat, depth: nat)
    requires k <= |items|
    ensures var s := Scan(items, k, depth);
            && (s.Found? && s.depth == 1 ==> NextChild(items, k, depth) == Some(s.at))
            && (s.Found? && s.depth > 1 ==> NextChild(items, k, depth) == NextChild(items, s.at + 1, s.depth))
            && (!s.Found? ==> NextChild(items, k, depth) == None)
    decreases |items| - k
  {
    if k < |items| && !items[k].Begin? {
      if !items[k].EndNode? {
        ScanTowardsChild(items, k + 1, depth);
      } else if depth > 0 {
        ScanTowardsChild(items, k + 1, depth - 1);
      }
    }
  }

  lemma ScanDepths(items: seq<Item>, k: nat, depth: nat)
    requires k <= |items|
    ensures var s := Scan(items, k, depth);
            && (s.Found? ==> 1 <= s.depth <= depth + 1 && s.at < |items|)
            && (s.Closed? ==> s.depth == -1)
            && (s.Missing? ==> s.depth >= 0)
    decreases |items| - k
  {
  }

  // ----- search by name -----

  const AT_SIGN: byte := 64
  const LETTER_A: byte := 97

  /** `_fdt_nodename_eq`: the exact name, or, for a key without a unit address, the name up to its own. */
  predicate NameMatches(name: seq<byte>, key: seq<byte>) {
    || name == key
    || (AT_SIGN !in key && |key| < |name| && name[..|key|] == key && name[|key|] == AT_SIGN)
  }

  /** A name without its unit address. */
  function Stem(name: seq<byte>): (r: seq<byte>)
    ensures |r| <= |name| && r == name[..|r|] && AT_SIGN !in r && (|r| < |name| ==> name[|r|] == AT_SIGN)
  {
    if name == [] || name[0] == AT_SIGN then [] else [name[0]] + Stem(name[1..])
  }

  /** A key without a unit address matches the names that have it as their stem; one with a unit address
      matches that name only. */
  lemma MatchesIsStem(name: seq<byte>, key: seq<byte>)
    ensures NameMatches(name, key) <==> if AT_SIGN in key then name == key else Stem(name) == key
  {
    var stem := Stem(name);
    if |stem| < |name| {
      assert AT_SIGN in name;
    }
    if AT_SIGN !in key && NameMatches(name, key) {
      StemIs(name, key);
    }
  }

  lemma {:induction false} StemIs(name: seq<byte>, key: seq<byte>)
    requires AT_SIGN !in key && |key| <= |name| && name[..|key|] == key && (|key| < |name| ==> name[|key|] == AT_SIGN)
    ensures Stem(name) == key
  {
    if key != [] {
      assert name[0] == key[0] && name[1..][..|key| - 1] == key[1..];
      StemIs(name[1..], key[1..]);
    }
  }

  /** The first node one level down, from item `k` at depth `depth`, whose name matches. */
  function ChildNamed(items: seq<Item>, k: nat, depth: nat, key: seq<byte>): (r: Option<nat>)
    requires k <= |items|
    ensures r.Some? ==> k <= r.value < |items| && items[r.value].Begin? && NameMatches(items[r.value].name, key)
    decreases |items| - k
  {
    if k == |items| then None
    else match items[k]
      case Begin(name, _) =>
        if depth == 0 && NameMatches(name, key) then Some(k) else ChildNamed(items, k + 1, depth + 1, key)
      case EndNode => if depth == 0 then None else ChildNamed(items, k + 1, depth - 1, key)
      case Prop(_, _, _) => ChildNamed(items, k + 1, depth, key)
      case Nop => ChildNamed(items, k + 1, depth, key)
  }

  lemma {:induction false} ScanTowardsNamed(items: seq<Item>, k: nat, depth: nat, key: seq<byte>)
    requires k <= |items|
    ensures var s := Scan(items, k, depth);
            && (s.Found? ==>
                  ChildNamed(items, k, depth, key) ==
                  if s.depth == 1 && NameMatches(items[s.at].name, key) then Some(s.at)
                  else ChildNamed(items, s.at + 1, s.depth, key))
            && (!s.Found? ==> ChildNamed(items, k, depth, key) == None)
    decreases |items| - k
  {
    if k < |items| && !items[k].Begin? {
      if !items[k].EndNode? {
        ScanTowardsNamed(items, k + 1, depth, key);
      } else if depth > 0 {
        ScanTowardsNamed(items, k + 1, depth - 1, key);
      }
    }
  }

  // ----- depth and ancestors -----

  /** Nodes opened and not closed before item `i`. */
  function Depth(items: seq<Item>, i: nat): int
    requires i <= |items|
  {
    if i == 0 then 0
    else Depth(items, i - 1) + (if items[i - 1].Begin? then 1 else if items[i - 1].EndNode? then -1 else 0)
  }

  /** `at` is a node of the tree whose root is the first item. */
  ghost predicate InTree(items: seq<Item>, at: nat) {
    && at < |items| && items[0].Begin? && items[at].Begin?
    && forall m :: 0 < m <= at ==> Depth(items, m) >= 1
  }

  /** The last node up to item `j` that starts at depth `d`. */
  function LastAt(items: seq<Item>, j: nat, d: nat): (r: Option<nat>)
    requires j < |items|
    ensures r.Some? ==> r.value <= j && items[r.value].Begin? && Depth(items, r.value) == d
    ensures r.Some? ==> forall m :: r.value < m <= j && items[m].Begin? ==> Depth(items, m) != d
    ensures r.None? ==> forall m :: 0 <= m <= j && items[m].Begin? ==> Depth(items, m) != d
  {
    if items[j].Begin? && Depth(items, j) == d then Some(j)
    else if j == 0 then None else LastAt(items, j - 1, d)
  }

  /** Going forward from a place at depth at most `d` to one deeper, a node starts at depth `d`. */
  lemma {:induction false} CrossUp(items: seq<Item>, m: nat, j: nat, d: int) returns (c: nat)
    requires m <= j <= |items| && Depth(items, m) <= d < Depth(items, j)
    ensures m <= c < j && items[c].Begin? && Depth(items, c) == d
    decreases j - m
  {
    if Depth(items, j - 1) <= d {
      c := j - 1;
    } else {
      c := CrossUp(items, m, j - 1, d);
    }
  }

  /** The ancestor of `at` at depth `d`: the one node at that depth that is still open at `at`. */
  ghost predicate Ancestor(items: seq<Item>, at: nat, d: nat, j: nat) {
    && j <= at < |items| && items[j].Begin? && Depth(items, j) == d
    && forall m :: j < m <= at ==> Depth(items, m) > d
  }

  lemma AncestorUnique(items: seq<Item>, at: nat, d: nat, j: nat, k: nat)
    requires Ancestor(items, at, d, j) && Ancestor(items, at, d, k)
    ensures j == k
  {
  }

  /** Every node of the tree has an ancestor at each depth up to its own, and it is the last node seen
      at that depth. */
  lemma LastAtIsAncestor(items: seq<Item>, at: nat, d: nat)
    requires InTree(items, at) && d <= Depth(items, at)
    ensures LastAt(items, at, d).Some? && Ancestor(items, at, d, LastAt(items, at, d).value)
  {
    var r := LastAt(items, at, d);
    assert Depth(items, 0) == 0;
    if d == Depth(items, at) {
      assert r == Some(at);
    }
    if d < Depth(items, at) {
      var c := CrossUp(items, 0, at, d);
      var j := r.value;
      forall m | j < m <= at ensures Depth(items, m) > d {
        if Depth(items, m) <= d {
          var c' := CrossUp(items, m, at, d);
          assert false;
        }
      }
    }
  }

  /** From a node, the search finds the next node, and the depth it reports is that node's. */
  lemma {:induction false} ScanDepth(items: seq<Item>, k: nat, depth: int)
    requires k <= |items|
    ensures var s := Scan(items, k, depth);
            && (s.Found? ==>
                  && s.depth == depth + 1 + Depth(items, s.at) - Depth(items, k)
                  && (forall m :: k <= m < s.at ==> !items[m].Begin?)
                  && (depth >= 0 ==> forall m :: k < m <= s.at ==> Depth(items, m) - Depth(items, k) + depth >= 0))
            && (s.Closed? ==> depth >= 0 ==> Depth(items, s.at) - Depth(items, k) + depth == -1)
            && (s.Closed? ==> (forall m :: k <= m < s.at ==> !items[m].Begin?))
            && (s.Missing? ==> (forall m :: k <= m < |items| ==> !items[m].Begin?))
    decreases |items| - k
  {
    if k < |items| && !items[k].Begin? {
      assert Depth(items, k + 1) == Depth(items, k) + if items[k].EndNode? then -1 else 0;
      if !items[k].EndNode? {
        ScanDepth(items, k + 1, depth);
      } else if depth - 1 >= 0 {
        ScanDepth(items, k + 1, depth - 1);
      }
    }
  }
}
