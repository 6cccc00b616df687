/**
 * Merging two nodes that carry the same symbol (`_merge_node` in src/main.rs).
 *
 * The children of both operands are pooled and bucketed by symbol in a map
 * (the source's `HashMap<char, Vec<Node>>`), sentinel children being dropped;
 * every bucket is then folded into one node by merging, starting from an empty
 * node with the bucket's symbol. The map is visited in an unspecified order,
 * modelled by choosing the next key with `:|`; every property below therefore
 * holds whatever order is chosen.
 */
module Merge {
  import opened Nodes

  // ---------------------------------------------------------------------------
  // Buckets
  // ---------------------------------------------------------------------------

  /** The nodes of `cs` whose symbol is `k`, in order: one bucket of the map. */
  function Group(cs: seq<Node>, k: char): (g: seq<Node>)
    ensures forall i :: 0 <= i < |g| ==> g[i].sym == Some(k)
    ensures SizeAll(g) <= SizeAll(cs)
  {
    if cs == [] then []
    else
      var init, last := cs[..|cs| - 1], cs[|cs| - 1];
      var g' := Group(init, k);
      var bucket := if last.sym == Some(k) then g' + [last] else g';
      assert (g' + [last])[..|g'|] == g';
      bucket
  }

  /** The nodes of `cs` whose symbol is one of `ks`, in order. */
  function Filter(cs: seq<Node>, ks: set<char>): (f: seq<Node>)
    ensures SizeAll(f) <= SizeAll(cs)
  {
    if cs == [] then []
    else
      var init, last := cs[..|cs| - 1], cs[|cs| - 1];
      var f' := Filter(init, ks);
      var kept := if last.sym.Some? && last.sym.value in ks then f' + [last] else f';
      assert (f' + [last])[..|f'|] == f';
      kept
  }

  /** The paths of `paths` whose first symbol is `k`. */
  function KeyPaths(paths: set<seq<char>>, k: char): set<seq<char>>
  {
    set p | p in paths && |p| > 0 && p[0] == k
  }

  /** The paths of `paths` whose first symbol is one of `ks`. */
  function Heads(paths: set<seq<char>>, ks: set<char>): set<seq<char>>
  {
    set p | p in paths && |p| > 0 && p[0] in ks
  }

  /** The union of the paths below each node of `cs`. */
  function BelowAll(cs: seq<Node>): set<seq<char>>
  {
    if cs == [] then {} else BelowAll(cs[..|cs| - 1]) + Below(cs[|cs| - 1])
  }

  // ---------------------------------------------------------------------------
  // Lemmas about buckets
  // ---------------------------------------------------------------------------

  lemma PrependUnion(x: char, a: set<seq<char>>, b: set<seq<char>>)
    ensures Prepend(x, a + b) == Prepend(x, a) + Prepend(x, b)
  {
  }

  /** Bucketing by symbol neither loses nor invents a path: the bucket for `k`
      reaches exactly the pooled paths that start with `k`. */
  lemma {:induction false} GroupReach(cs: seq<Node>, k: char)
    ensures Reach(Group(cs, k)) == KeyPaths(Reach(cs), k)
  {
    if cs != [] {
      var init, last := cs[..|cs| - 1], cs[|cs| - 1];
      GroupReach(init, k);
      ReachSingle(last);
      forall p | p in Real(last)
        ensures |p| > 0 && p[0] == last.sym.value
      {
        RealHead(last, p);
      }
      if last.sym == Some(k) {
        ReachAppend(Group(init, k), [last]);
      }
    }
  }

  /** A non-empty bucket of nodes that all carry `k` reaches `[k]` and `k`
      followed by any path below one of its nodes. */
  lemma {:induction false} BucketReach(g: seq<Node>, k: char)
    requires g != []
    requires forall i :: 0 <= i < |g| ==> g[i].sym == Some(k)
    ensures Reach(g) == {[k]} + Prepend(k, BelowAll(g))
  {
    var init, last := g[..|g| - 1], g[|g| - 1];
    if init == [] {
      assert BelowAll(g) == Below(last);
    } else {
      BucketReach(init, k);
      PrependUnion(k, BelowAll(init), Below(last));
    }
  }

  /** Splitting the kept symbols `ks + {k}` into `ks` and `k` splits the size
      of what is kept the same way. */
  lemma {:induction false} FilterSplitSize(cs: seq<Node>, ks: set<char>, k: char)
    requires k !in ks
    ensures SizeAll(Filter(cs, ks + {k})) == SizeAll(Filter(cs, ks)) + SizeAll(Group(cs, k))
  {
    if cs != [] {
      var init, last := cs[..|cs| - 1], cs[|cs| - 1];
      assert Filter(cs, ks + {k}) == if last.sym.Some? && last.sym.value in ks + {k}
        then Filter(init, ks + {k}) + [last] else Filter(init, ks + {k});
      assert Filter(cs, ks) == if last.sym.Some? && last.sym.value in ks
        then Filter(init, ks) + [last] else Filter(init, ks);
      assert Group(cs, k) == if last.sym == Some(k) then Group(init, k) + [last] else Group(init, k);
      FilterSplitSize(init, ks, k);
      if last.sym.Some? && last.sym.value in ks + {k} {
        SizeAllAppend(Filter(init, ks + {k}), [last]);
        assert [last][..0] == [];
        if last.sym.value in ks {
          SizeAllAppend(Filter(init, ks), [last]);
        } else {
          SizeAllAppend(Group(init, k), [last]);
        }
      }
    }
  }

  lemma {:induction false} SizeAllPrefix(cs: seq<Node>, j: nat)
    requires j <= |cs|
    ensures SizeAll(cs[..j]) <= SizeAll(cs)
  {
    assert cs == cs[..j] + cs[j..];
    SizeAllAppend(cs[..j], cs[j..]);
  }

  // ---------------------------------------------------------------------------
  // Merge
  // ---------------------------------------------------------------------------

  /** What the outer loop of `_merge_node` keeps once the buckets of `done`
      are folded into `children`: one real, merged child per symbol of `done`,
      no two alike, reaching exactly the pooled paths that start with a symbol
      of `done`, and no larger than the pooled nodes with those symbols. */
  ghost predicate Folded(pooled: seq<Node>, done: set<char>, children: seq<Node>)
  {
    && (forall j :: 0 <= j < |children| ==> children[j].sym.Some? && children[j].sym.value in done)
    && DistinctSyms(children)
    && (forall j :: 0 <= j < |children| ==> WellMerged(children[j]))
    && Reach(children) == Heads(Reach(pooled), done)
    && SizeAll(children) <= SizeAll(Filter(pooled, done))
  }

  /** One step of the outer loop: appending the node folded from the bucket of
      a symbol not yet done keeps `Folded`. */
  lemma AddBucket(pooled: seq<Node>, children: seq<Node>, done: set<char>, k: char, acc: Node)
    requires Folded(pooled, done, children)
    requires k !in done && Group(pooled, k) != []
    requires acc.sym == Some(k) && WellMerged(acc)
    requires Below(acc) == BelowAll(Group(pooled, k))
    requires Size(acc) <= SizeAll(Group(pooled, k))
    ensures Folded(pooled, done + {k}, children + [acc])
  {
    var children' := children + [acc];
    assert forall j :: 0 <= j < |children'| ==> children'[j].sym.Some? && children'[j].sym.value in done + {k};
    assert DistinctSyms(children');
    assert forall j :: 0 <= j < |children'| ==> WellMerged(children'[j]);
    assert Reach(children') == Heads(Reach(pooled), done + {k}) by {
      BucketReach(Group(pooled, k), k);
      GroupReach(pooled, k);
      ReachAppend(children, [acc]);
      ReachSingle(acc);
    }
    assert SizeAll(children') <= SizeAll(Filter(pooled, done + {k})) by {
      SizeAllAppend(children, [acc]);
      assert [acc][..0] == [];
      FilterSplitSize(pooled, done, k);
    }
  }

  /** Every pooled path starts with the symbol of a non-empty bucket. */
  lemma HeadsAll(pooled: seq<Node>, keys: set<char>)
    requires forall k :: k in keys <==> Group(pooled, k) != []
    ensures Heads(Reach(pooled), keys) == Reach(pooled)
  {
    forall p | p in Reach(pooled)
      ensures p in Heads(Reach(pooled), keys)
    {
      ReachHead(pooled, p);
      GroupReach(pooled, p[0]);
      assert p in Reach(Group(pooled, p[0]));
    }
  }

  /** Once every non-empty bucket is folded, the children reach all pooled
      paths and are no larger than the pooled nodes. */
  lemma FoldedAll(pooled: seq<Node>, keys: set<char>, children: seq<Node>)
    requires forall k :: k in keys <==> Group(pooled, k) != []
    requires Folded(pooled, keys, children)
    ensures forall j :: 0 <= j < |children| ==> children[j].sym.Some? && WellMerged(children[j])
    ensures DistinctSyms(children)
    ensures Reach(children) == Reach(pooled)
    ensures SizeAll(children) <= SizeAll(pooled)
  {
    HeadsAll(pooled, keys);
  }

  // ---------------------------------------------------------------------------
  // Merge
  // ---------------------------------------------------------------------------

  /** The bucketing loop of `_merge_node`: every real node of `pooled` is
      appended to the bucket of its symbol, sentinels are skipped. The map has
      a key exactly for the symbols that occur, and each bucket keeps the
      pooled order. */
  method GroupBySymbol(pooled: seq<Node>) returns (groups: map<char, seq<Node>>)
    ensures forall k :: k in groups <==> Group(pooled, k) != []
    ensures forall k :: k in groups ==> groups[k] == Group(pooled, k)
  {
    groups := map[];
    var i := 0;
    while i < |pooled|
      invariant 0 <= i <= |pooled|
      invariant forall k :: k in groups <==> Group(pooled[..i], k) != []
      invariant forall k :: k in groups ==> groups[k] == Group(pooled[..i], k)
    {
      var c := pooled[i];
      assert pooled[..i + 1][..i] == pooled[..i];
      assert pooled[..i + 1][i] == c;
      match c.sym {
        case Some(x) =>
          if x in groups {
            groups := groups[x := groups[x] + [c]];
          } else {
            groups := groups[x := [c]];
          }
        case None =>
      }
      i := i + 1;
    }
    assert pooled[..i] == pooled;
  }

  /** The inner fold of `_merge_node`: starting from an empty node with symbol
      `k`, merges every node of the bucket `g` into the accumulator in turn.
      The result carries `k`, is a merge result, and has exactly the paths
      below the bucket's nodes. */
  method FoldBucket(g: seq<Node>, k: char) returns (acc: Node)
    requires g != []
    requires forall i :: 0 <= i < |g| ==> g[i].sym == Some(k)
    ensures acc.sym == Some(k) && WellMerged(acc)
    ensures Below(acc) == BelowAll(g)
    ensures Size(acc) <= SizeAll(g)
    decreases 2 + SizeAll(g), 0
  {
    acc := NewEmpty(Some(k));
    var j := 0;
    while j < |g|
      invariant 0 <= j <= |g|
      invariant acc.sym == Some(k) && WellMerged(acc)
      invariant Below(acc) == BelowAll(g[..j])
      invariant Size(acc) + j <= 1 + SizeAll(g[..j])
    {
      assert g[..j + 1][..j] == g[..j];
      SizeAllPrefix(g, j + 1);
      acc := MergeNodes(acc, g[j]);
      j := j + 1;
    }
    assert g[..j] == g;
  }

  /** One step of the outer loop of `_merge_node`: folds the bucket of `k`
      and appends the result to the children collected so far. */
  method FoldNext(pooled: seq<Node>, groups: map<char, seq<Node>>, children: seq<Node>,
                  ghost done: set<char>, k: char) returns (children': seq<Node>)
    requires forall k :: k in groups ==> groups[k] == Group(pooled, k) != []
    requires Folded(pooled, done, children)
    requires k in groups && k !in done
    ensures Folded(pooled, done + {k}, children')
    ensures |children'| == |children| + 1 && children'[..|children|] == children
    decreases 2 + SizeAll(pooled), 1
  {
    var acc := FoldBucket(groups[k], k);
    AddBucket(pooled, children, done, k, acc);
    children' := children + [acc];
    assert children'[..|children|] == children;
  }

  /** The outer loop of `_merge_node`: folds every bucket of `groups` into one
      node and collects those nodes, visiting the buckets in whatever order the
      map yields them. The result has one real, merged child per symbol of the
      map and reaches exactly the paths of the pooled children. */
  method FoldGroups(pooled: seq<Node>, groups: map<char, seq<Node>>) returns (children: seq<Node>)
    requires forall k :: k in groups <==> Group(pooled, k) != []
    requires forall k :: k in groups ==> groups[k] == Group(pooled, k)
    ensures forall j :: 0 <= j < |children| ==> children[j].sym.Some? && WellMerged(children[j])
    ensures DistinctSyms(children)
    ensures Reach(children) == Reach(pooled)
    ensures SizeAll(children) <= SizeAll(pooled)
    decreases 2 + SizeAll(pooled), 2
  {
    children := [];
    var remaining := groups.Keys;
    ghost var done: set<char> := {};
    while remaining != {}
      invariant done !! remaining && done + remaining == groups.Keys
      invariant Folded(pooled, done, children)
      decreases remaining
    {
      var k :| k in remaining;
      children := FoldNext(pooled, groups, children, done, k);
      remaining := remaining - {k};
      done := done + {k};
    }
    FoldedAll(pooled, done, children);
  }

  /** Merges `n` and `m`, which must carry the same symbol (the source asserts
      it and aborts otherwise). The result carries that symbol, has no sentinel
      and no two same-symbol siblings at any depth, and has exactly the paths
      below `n` together with those below `m`. It is also never larger than the
      two operands together, less the one root it saves. */
  method MergeNodes(n: Node, m: Node) returns (r: Node)
    requires n.sym == m.sym
    ensures r.sym == n.sym
    ensures WellMerged(r)
    ensures Below(r) == Below(n) + Below(m)
    ensures Size(r) <= Size(n) + Size(m) - 1
    decreases Size(n) + Size(m), 3
  {
    var pooled := n.children + m.children;
    ReachAppend(n.children, m.children);
    SizeAllAppend(n.children, m.children);
    var groups := GroupBySymbol(pooled);
    var children := FoldGroups(pooled, groups);
    r := Node(n.sym, children);
  }
}
