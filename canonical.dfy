/**
 * Why the unspecified iteration order of the map in `_merge_node` does not
 * matter: a merge result is determined, up to the order of siblings, by its
 * symbol and the set of paths below it. Together with the contract of
 * `MergeNodes` this makes merge commutative and associative up to sibling
 * order.
 */
module Canonical {
  import opened Nodes
  import opened Merge
  import opened Forest

  /** `perm` is a permutation of `0 .. n - 1`: one index per position, all in
      range and no two alike. */
  predicate IsPermutation(perm: seq<nat>, n: nat)
  {
    && |perm| == n
    && (forall i :: 0 <= i < n ==> perm[i] < n)
    && (forall i, j :: 0 <= i < j < n ==> perm[i] != perm[j])
  }

  /** `a` and `b` are the same tree once the children of each node are
      permuted: the same symbol, and a permutation pairing every child of `a`
      with a child of `b` that is in turn the same tree up to order. */
  ghost predicate SameUpToOrder(a: Node, b: Node)
  {
    && a.sym == b.sym
    && |a.children| == |b.children|
    && exists perm: seq<nat> :: IsPermutation(perm, |a.children|) &&
         forall i :: 0 <= i < |a.children| ==> SameUpToOrder(a.children[i], b.children[perm[i]])
  }

  /** The symbols of the real nodes of `cs`. */
  function SymsOf(cs: seq<Node>): set<char>
  {
    if cs == [] then {}
    else
      var last := cs[|cs| - 1];
      SymsOf(cs[..|cs| - 1]) + (if last.sym.Some? then {last.sym.value} else {})
  }

  lemma {:induction false} SymsOfMember(cs: seq<Node>, x: char)
    ensures x in SymsOf(cs) <==> exists i :: 0 <= i < |cs| && cs[i].sym == Some(x)
  {
    if cs != [] {
      var init := cs[..|cs| - 1];
      SymsOfMember(init, x);
      if exists i :: 0 <= i < |init| && init[i].sym == Some(x) {
        var i :| 0 <= i < |init| && init[i].sym == Some(x);
        assert cs[i].sym == Some(x);
      }
      if exists i :: 0 <= i < |cs| && cs[i].sym == Some(x) {
        var i :| 0 <= i < |cs| && cs[i].sym == Some(x);
        if i < |cs| - 1 {
          assert init[i].sym == Some(x);
        }
      }
    }
  }

  // ---------------------------------------------------------------------------
  // Paths through one child
  // ---------------------------------------------------------------------------

  lemma {:induction false} ReachContains(cs: seq<Node>, i: nat)
    requires i < |cs|
    ensures Real(cs[i]) <= Reach(cs)
  {
    if i < |cs| - 1 {
      ReachContains(cs[..|cs| - 1], i);
    }
  }

  /** A path through a node with symbol `x` is `[x]`, or `x` followed by a
      path below that node. */
  lemma RealCons(c: Node, x: char, q: seq<char>)
    requires c.sym == Some(x)
    ensures [x] + q in Real(c) <==> q == [] || q in Below(c)
  {
    if [x] + q in Real(c) && q != [] {
      var q' :| q' in Below(c) && [x] + q == [x] + q';
      assert q == ([x] + q)[1..] == ([x] + q')[1..] == q';
    }
    if q in Below(c) {
      assert [x] + q in Prepend(x, Below(c));
    }
    if q == [] {
      assert [x] + q == [x];
    }
  }

  /** Among siblings with distinct symbols, the paths that start with `x` all
      run through the one sibling carrying `x`. */
  lemma {:induction false} ReachKey(cs: seq<Node>, i: nat, x: char, q: seq<char>)
    requires DistinctSyms(cs) && i < |cs| && cs[i].sym == Some(x)
    ensures [x] + q in Reach(cs) <==> [x] + q in Real(cs[i])
  {
    ReachContains(cs, i);
    var init, last := cs[..|cs| - 1], cs[|cs| - 1];
    if [x] + q in Reach(cs) {
      if i == |cs| - 1 {
        if [x] + q in Reach(init) {
          ReachHead(init, [x] + q);
          assert false;
        }
      } else {
        if [x] + q in Real(last) {
          RealHead(last, [x] + q);
          assert false;
        }
        ReachKey(init, i, x, q);
      }
    }
  }

  /** Below a node whose children carry distinct symbols, `[x] + q` (with `q`
      non-empty) is a path exactly when `q` is a path below the child carrying
      `x`. */
  lemma ChildBelow(n: Node, i: nat, x: char, q: seq<char>)
    requires DistinctSyms(n.children) && i < |n.children| && n.children[i].sym == Some(x)
    requires q != []
    ensures [x] + q in Below(n) <==> q in Below(n.children[i])
  {
    ReachKey(n.children, i, x, q);
    RealCons(n.children[i], x, q);
  }

  /** The symbols of a node's real children are exactly the one-symbol paths
      below it. */
  lemma ChildSymsArePaths(n: Node, x: char)
    ensures x in SymsOf(n.children) <==> [x] in Below(n)
  {
    SymsOfMember(n.children, x);
    if x in SymsOf(n.children) {
      var i :| 0 <= i < |n.children| && n.children[i].sym == Some(x);
      ReachContains(n.children, i);
    }
    if [x] in Below(n) {
      ReachHead(n.children, [x]);
      var i :| 0 <= i < |n.children| && n.children[i].sym == Some([x][0]);
      assert x == n.children[i].sym.value;
    }
  }

  /** Real siblings with distinct symbols are as many as their symbols. */
  lemma {:induction false} DistinctCount(cs: seq<Node>)
    requires DistinctSyms(cs)
    requires forall i :: 0 <= i < |cs| ==> cs[i].sym.Some?
    ensures |SymsOf(cs)| == |cs|
  {
    if cs != [] {
      var init, last := cs[..|cs| - 1], cs[|cs| - 1];
      DistinctCount(init);
      assert last.sym.value !in SymsOf(init) by {
        SymsOfMember(init, last.sym.value);
      }
    }
  }

  /** A merged node has as many children as there are one-symbol paths below
      it. */
  lemma ChildCount(n: Node)
    requires WellMerged(n)
    ensures |n.children| == |SymsOf(n.children)|
  {
    DistinctCount(n.children);
  }

  // ---------------------------------------------------------------------------
  // Determinacy
  // ---------------------------------------------------------------------------

  /** The children carrying the same symbol under two merged nodes with the
      same paths have the same paths below them. */
  lemma SameChildPaths(a: Node, b: Node, i: nat, j: nat)
    requires WellMerged(a) && WellMerged(b) && Below(a) == Below(b)
    requires i < |a.children| && j < |b.children| && a.children[i].sym == b.children[j].sym
    ensures Below(a.children[i]) == Below(b.children[j])
  {
    var x := a.children[i].sym.value;
    forall q ensures q in Below(a.children[i]) <==> q in Below(b.children[j]) {
      if q == [] {
        if q in Below(a.children[i]) { ReachHead(a.children[i].children, q); }
        if q in Below(b.children[j]) { ReachHead(b.children[j].children, q); }
      } else {
        ChildBelow(a, i, x, q);
        ChildBelow(b, j, x, q);
      }
    }
  }

  /** Under two merged nodes with the same paths, a permutation pairs each
      child of `a` with the child of `b` carrying the same symbol. */
  lemma Pairing(a: Node, b: Node) returns (perm: seq<nat>)
    requires WellMerged(a) && WellMerged(b) && Below(a) == Below(b)
    ensures IsPermutation(perm, |a.children|) && |b.children| == |a.children|
    ensures forall i :: 0 <= i < |a.children| ==> b.children[perm[i]].sym == a.children[i].sym
  {
    assert SymsOf(a.children) == SymsOf(b.children) by {
      forall x ensures x in SymsOf(a.children) <==> x in SymsOf(b.children) {
        ChildSymsArePaths(a, x);
        ChildSymsArePaths(b, x);
      }
    }
    ChildCount(a);
    ChildCount(b);
    perm := seq(|a.children|, i requires 0 <= i < |a.children| =>
      var r := Position(b.children, a.children[i].sym); if r.Some? then r.value else 0);
    forall i | 0 <= i < |a.children|
      ensures perm[i] < |b.children| && b.children[perm[i]].sym == a.children[i].sym
    {
      SymsOfMember(a.children, a.children[i].sym.value);
      SymsOfMember(b.children, a.children[i].sym.value);
    }
  }

  /** Two merge results with the same symbol and the same paths below them are
      the same tree up to sibling order. Since `MergeNodes` fixes the symbol and
      the paths of its result, the order in which the map yields its buckets
      changes nothing but sibling order. */
  lemma {:induction false} Determined(a: Node, b: Node)
    requires WellMerged(a) && WellMerged(b)
    requires a.sym == b.sym && Below(a) == Below(b)
    ensures SameUpToOrder(a, b)
  {
    var perm := Pairing(a, b);
    forall i | 0 <= i < |a.children|
      ensures SameUpToOrder(a.children[i], b.children[perm[i]])
    {
      SameChildPaths(a, b, i, perm[i]);
      Determined(a.children[i], b.children[perm[i]]);
    }
  }

  // ---------------------------------------------------------------------------
  // Consequences
  // ---------------------------------------------------------------------------

  /** Merging in either order, or grouping three merges either way, gives the
      same tree up to sibling order. */
  method MergeOrderIrrelevant(a: Node, b: Node, c: Node) returns (ab: Node, ba: Node, abc: Node, abc': Node)
    requires a.sym == b.sym == c.sym
    ensures WellMerged(ab) && WellMerged(ba) && WellMerged(abc) && WellMerged(abc')
    ensures SameUpToOrder(ab, ba)
    ensures SameUpToOrder(abc, abc')
  {
    ab := MergeNodes(a, b);
    ba := MergeNodes(b, a);
    Determined(ab, ba);
    abc := MergeNodes(ab, c);
    var bc := MergeNodes(b, c);
    abc' := MergeNodes(a, bc);
    Determined(abc, abc');
  }

  /** The only child below a merged node whose paths are just `[x]`. */
  lemma OnlyChild(n: Node, x: char)
    requires WellMerged(n) && Below(n) == {[x]}
    ensures |n.children| == 1 && n.children[0].sym == Some(x)
  {
    assert SymsOf(n.children) == {x} by {
      forall y ensures y in SymsOf(n.children) <==> y == x {
        ChildSymsArePaths(n, y);
      }
    }
    ChildCount(n);
    SymsOfMember(n.children, n.children[0].sym.value);
  }

  /** A merged node with no path below it has no children. */
  lemma NoPathsNoChildren(n: Node)
    requires WellMerged(n) && Below(n) == {}
    ensures n.children == []
  {
    if n.children != [] {
      ChildSymsArePaths(n, n.children[0].sym.value);
      SymsOfMember(n.children, n.children[0].sym.value);
    }
  }
}
