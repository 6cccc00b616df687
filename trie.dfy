/**
 * The trie itself (`Trie`, `Trie::new`, `Trie::insert` in src/main.rs): a
 * forest of root nodes, one per leading symbol, grown by inserting chains and
 * merging each with the root that already carries its symbol.
 */
module Forest {
  import opened Nodes
  import opened Merge
  import opened Dot

  /** The first index of `roots` whose node carries `sym`, if any
      (`Iterator::position` as the source uses it). */
  function Position(roots: seq<Node>, sym: Option<char>): (r: Option<nat>)
    ensures r.None? <==> forall i :: 0 <= i < |roots| ==> roots[i].sym != sym
    ensures r.Some? ==> r.value < |roots| && roots[r.value].sym == sym
    ensures r.Some? ==> forall i :: 0 <= i < r.value ==> roots[i].sym != sym
  {
    if roots == [] then None
    else if roots[0].sym == sym then Some(0)
    else
      match Position(roots[1..], sym)
      case None => None
      case Some(j) => Some(j + 1)
  }

  /** The node merged from two same-symbol nodes starts exactly the paths
      that either of them starts. */
  lemma MergedReal(found: Node, m: Node, merged: Node)
    requires found.sym == m.sym && merged.sym == m.sym
    requires Below(merged) == Below(found) + Below(m)
    ensures Real(merged) == Real(found) + Real(m)
  {
  }

  /** Taking the root at `i` out of `roots` and appending `merged` in its
      place at the end trades the paths of the old root for those of the new. */
  lemma ReachReplace(roots: seq<Node>, i: nat, merged: Node)
    requires i < |roots|
    ensures Reach(roots[..i] + roots[i + 1..] + [merged])
         == Reach(roots[..i]) + Reach(roots[i + 1..]) + Real(merged)
    ensures Reach(roots) == Reach(roots[..i]) + Real(roots[i]) + Reach(roots[i + 1..])
  {
    ReachAppend(roots[..i] + roots[i + 1..], [merged]);
    ReachAppend(roots[..i], roots[i + 1..]);
    ReachSingle(merged);
    assert roots == roots[..i] + [roots[i]] + roots[i + 1..];
    ReachAppend(roots[..i] + [roots[i]], roots[i + 1..]);
    ReachAppend(roots[..i], [roots[i]]);
    ReachSingle(roots[i]);
  }

  /** Every root has the sentinels-trail shape. */
  ghost predicate AllTrail(roots: seq<Node>)
  {
    forall i :: 0 <= i < |roots| ==> SentinelsTrail(roots[i])
  }

  /** Replacing the root at `i` by a node with the same symbol, moved to the
      end, keeps the root symbols distinct and the roots' shape. */
  lemma ReplaceKeeps(roots: seq<Node>, i: nat, merged: Node)
    requires DistinctSyms(roots) && i < |roots| && merged.sym == roots[i].sym
    ensures DistinctSyms(roots[..i] + roots[i + 1..] + [merged])
    ensures AllTrail(roots) && SentinelsTrail(merged) ==> AllTrail(roots[..i] + roots[i + 1..] + [merged])
  {
  }

  /** Appending a node whose symbol no root carries keeps the root symbols
      distinct and the roots' shape. */
  lemma AppendKeeps(roots: seq<Node>, m: Node)
    requires DistinctSyms(roots)
    requires forall i :: 0 <= i < |roots| ==> roots[i].sym != m.sym
    ensures DistinctSyms(roots + [m])
    ensures AllTrail(roots) && SentinelsTrail(m) ==> AllTrail(roots + [m])
  {
  }

  /** A trie: the forest of its roots, in stored order. */
  class Trie {
    var roots: seq<Node>

    /** No two roots carry the same symbol. */
    ghost predicate Valid()
      reads this
    {
      DistinctSyms(roots)
    }

    /** An empty trie (`Trie::new`). */
    constructor ()
      ensures Valid() && roots == []
    {
      roots := [];
    }

    /** Inserts `m` (`Trie::insert`). If no root carries `m`'s symbol, `m` is
        appended and nothing else changes. Otherwise the first root that does
        is taken out, the others keep their order, and the merge of that root
        with `m` is appended at the end. Either way the roots keep distinct
        symbols, grow by at most one, and start exactly the paths they started
        before together with the paths `m` starts. */
    method Insert(m: Node)
      requires Valid()
      modifies this
      ensures Valid()
      ensures |roots| <= |old(roots)| + 1
      ensures old(Position(roots, m.sym)).None? ==> roots == old(roots) + [m]
      ensures old(Position(roots, m.sym)).Some? ==>
        var i := old(Position(roots, m.sym)).value;
        && |roots| == |old(roots)|
        && roots[..|roots| - 1] == old(roots)[..i] + old(roots)[i + 1..]
        && roots[|roots| - 1].sym == m.sym
        && WellMerged(roots[|roots| - 1])
        && Below(roots[|roots| - 1]) == Below(old(roots)[i]) + Below(m)
      ensures Reach(roots) == old(Reach(roots)) + Real(m)
      ensures AllTrail(old(roots)) && SentinelsTrail(m) ==> AllTrail(roots)
    {
      var idx := Position(roots, m.sym);
      match idx {
        case Some(i) =>
          var found := roots[i];
          var rest := roots[..i] + roots[i + 1..];
          var merged := MergeNodes(found, m);
          MergedReal(found, m, merged);
          ReachReplace(roots, i, merged);
          WellMergedTrail(merged);
          ReplaceKeeps(roots, i, merged);
          assert (rest + [merged])[..|rest|] == rest;
          roots := rest + [merged];
        case None =>
          ReachAppend(roots, [m]);
          ReachSingle(m);
          AppendKeeps(roots, m);
          roots := roots + [m];
      }
    }

    /** `Trie::print_dot`: the header, then every root's lines in stored
        order, then the footer. */
    method PrintDot() returns (out: seq<Line>)
      ensures out == TrieDot(roots)
    {
      out := [Header];
      var i := 0;
      while i < |roots|
        invariant 0 <= i <= |roots|
        invariant out + RootsDot(roots, i) == [Header] + RootsDot(roots, 0)
      {
        var sub := PrintNode(roots[i], [i]);
        out := out + sub;
        i := i + 1;
      }
      out := out + [Footer];
    }
  }

  /** All non-empty prefixes of all of `lines`. */
  function AllPrefixes(lines: seq<seq<char>>): set<seq<char>>
  {
    if lines == [] then {} else AllPrefixes(lines[..|lines| - 1]) + Prefixes(lines[|lines| - 1])
  }

  /** The body of the source's input loop without the reading and the
      normalisation: every line, in order, is turned into a chain and inserted
      into a fresh trie. The trie then has distinct root symbols, at most one
      root per line, only sentinels-trail roots, and its paths are exactly the
      non-empty prefixes of the lines. */
  method BuildTrie(lines: seq<seq<char>>) returns (t: Trie)
    ensures fresh(t) && t.Valid()
    ensures |t.roots| <= |lines|
    ensures Reach(t.roots) == AllPrefixes(lines)
    ensures AllTrail(t.roots)
  {
    t := new Trie();
    var i := 0;
    while i < |lines|
      invariant 0 <= i <= |lines|
      invariant t.Valid() && |t.roots| <= i
      invariant Reach(t.roots) == AllPrefixes(lines[..i])
      invariant AllTrail(t.roots)
    {
      var chain := FromString(lines[i]);
      FromStringPaths(lines[i]);
      FromStringTrail(lines[i]);
      t.Insert(chain);
      assert lines[..i + 1][..i] == lines[..i];
      i := i + 1;
    }
    assert lines[..i] == lines;
  }
}
