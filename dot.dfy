/**
 * Graphviz DOT output of a trie (`Node::print_dot`, `Trie::print_dot` in
 * src/main.rs), as a sequence of output records rather than printed text.
 *
 * A node's identity in the output is its position in the forest: root `i`
 * is `[i]` and child `j` of the node at `p` is `p + [j]`. Distinct positions
 * give distinct identities, which is all the output relies on.
 */
module Dot {
  import opened Nodes

  /** The position of a node in the forest, standing for `Node::id`. */
  type Id = seq<nat>

  /** One output line: the graph header, a node declaration with its symbol as
      label, an edge, or the closing footer. */
  datatype Line = Header | Decl(id: Id, symbol: char) | Edge(src: Id, dst: Id) | Footer

  // ---------------------------------------------------------------------------
  // What is printed
  // ---------------------------------------------------------------------------

  /** The lines printed for the node `n` at `id`: nothing for a sentinel,
      otherwise its declaration and then, child by child, an edge and the
      child's own lines, stopping at the first sentinel child. */
  function NodeDot(n: Node, id: Id): seq<Line>
    decreases n, 1
  {
    match n.sym
    case None => []
    case Some(x) => [Decl(id, x)] + ChildrenDot(n, id, 0)
  }

  /** The lines printed for the children of `n` from index `i` on. */
  function ChildrenDot(n: Node, id: Id, i: nat): seq<Line>
    requires i <= |n.children|
    decreases n, 0, |n.children| - i
  {
    if i == |n.children| || n.children[i].sym.None? then []
    else [Edge(id, id + [i])] + NodeDot(n.children[i], id + [i]) + ChildrenDot(n, id, i + 1)
  }

  /** The lines printed for the roots from index `i` on. */
  function RootsDot(roots: seq<Node>, i: nat): seq<Line>
    requires i <= |roots|
    decreases |roots| - i
  {
    if i == |roots| then [] else NodeDot(roots[i], [i]) + RootsDot(roots, i + 1)
  }

  /** The whole output for a forest: header, every root's lines, footer. */
  function TrieDot(roots: seq<Node>): seq<Line>
  {
    [Header] + RootsDot(roots, 0) + [Footer]
  }

  /** `Node::print_dot`: the loop over the children breaks at the first
      sentinel child. */
  method PrintNode(n: Node, id: Id) returns (out: seq<Line>)
    ensures out == NodeDot(n, id)
    decreases n
  {
    out := [];
    match n.sym {
      case None =>
      case Some(x) =>
        out := [Decl(id, x)];
        var i := 0;
        while i < |n.children|
          invariant 0 <= i <= |n.children|
          invariant out + ChildrenDot(n, id, i) == NodeDot(n, id)
        {
          var child := n.children[i];
          if child.sym.None? {
            break;
          }
          var sub := PrintNode(child, id + [i]);
          assert ChildrenDot(n, id, i) == [Edge(id, id + [i])] + sub + ChildrenDot(n, id, i + 1);
          out := out + [Edge(id, id + [i])] + sub;
          i := i + 1;
        }
        assert ChildrenDot(n, id, i) == [];
        assert out + [] == out;
    }
  }

  // ---------------------------------------------------------------------------
  // Properties of output sequences
  // ---------------------------------------------------------------------------

  /** Every edge is immediately followed by the declaration of its target. */
  ghost predicate TargetsFollow(out: seq<Line>)
  {
    forall k :: 0 <= k < |out| && out[k].Edge? ==>
      k + 1 < |out| && out[k + 1].Decl? && out[k + 1].id == out[k].dst
  }

  /** Only declarations and edges: no header or footer. */
  ghost predicate Body(out: seq<Line>)
  {
    forall k :: 0 <= k < |out| ==> out[k].Decl? || out[k].Edge?
  }

  /** No identity is declared twice. */
  ghost predicate DistinctDecls(out: seq<Line>)
  {
    forall a, b :: 0 <= a < b < |out| && out[a].Decl? && out[b].Decl? ==> out[a].id != out[b].id
  }

  /** Every declared identity extends `p` by at least one index, the first of
      which is at least `lo`. */
  ghost predicate DeclsBeyond(out: seq<Line>, p: Id, lo: nat)
  {
    forall k :: 0 <= k < |out| && out[k].Decl? ==>
      |p| < |out[k].id| && out[k].id[..|p|] == p && out[k].id[|p|] >= lo
  }

  /** Every declared identity extends `p`. */
  ghost predicate DeclsWithin(out: seq<Line>, p: Id)
  {
    forall k :: 0 <= k < |out| && out[k].Decl? ==> |p| <= |out[k].id| && out[k].id[..|p|] == p
  }

  /** The number of declarations in `out`. */
  function Decls(out: seq<Line>): nat
  {
    if out == [] then 0 else Decls(out[..|out| - 1]) + (if out[|out| - 1].Decl? then 1 else 0)
  }

  /** The number of edges in `out`. */
  function Edges(out: seq<Line>): nat
  {
    if out == [] then 0 else Edges(out[..|out| - 1]) + (if out[|out| - 1].Edge? then 1 else 0)
  }

  /** The number of real (non-sentinel) roots from index `i` on. */
  function RealRoots(roots: seq<Node>, i: nat): nat
    requires i <= |roots|
    decreases |roots| - i
  {
    if i == |roots| then 0 else (if roots[i].sym.Some? then 1 else 0) + RealRoots(roots, i + 1)
  }

  lemma {:induction false} CountAppend(a: seq<Line>, b: seq<Line>)
    ensures Decls(a + b) == Decls(a) + Decls(b)
    ensures Edges(a + b) == Edges(a) + Edges(b)
    decreases |b|
  {
    if b == [] {
      assert a + b == a;
    } else {
      var b' := b[..|b| - 1];
      assert (a + b)[..|a + b| - 1] == a + b';
      assert (a + b)[|a + b| - 1] == b[|b| - 1];
      CountAppend(a, b');
    }
  }

  lemma ShapeAppend(a: seq<Line>, b: seq<Line>)
    ensures TargetsFollow(a) && TargetsFollow(b) ==> TargetsFollow(a + b)
    ensures Body(a) && Body(b) ==> Body(a + b)
  {
  }

  lemma DistinctAppend(a: seq<Line>, b: seq<Line>)
    requires DistinctDecls(a) && DistinctDecls(b)
    requires forall x, y :: 0 <= x < |a| && 0 <= y < |b| && a[x].Decl? && b[y].Decl? ==> a[x].id != b[y].id
    ensures DistinctDecls(a + b)
  {
  }

  /** An edge put in front of output that starts with its target's
      declaration. */
  lemma EdgeThen(src: Id, dst: Id, sub: seq<Line>)
    requires |sub| > 0 && sub[0].Decl? && sub[0].id == dst
    requires TargetsFollow(sub) && Body(sub)
    ensures TargetsFollow([Edge(src, dst)] + sub) && Body([Edge(src, dst)] + sub)
    ensures Decls([Edge(src, dst)] + sub) == Decls(sub) && Edges([Edge(src, dst)] + sub) == Edges(sub) + 1
  {
    var out := [Edge(src, dst)] + sub;
    forall k | 0 <= k < |out| && out[k].Edge?
      ensures k + 1 < |out| && out[k + 1].Decl? && out[k + 1].id == out[k].dst
    {
      if k > 0 {
        assert out[k] == sub[k - 1];
      }
    }
    CountAppend([Edge(src, dst)], sub);
    assert [Edge(src, dst)][..0] == [];
  }

  /** The declarations below the child at index `i` of the node at `p` all
      extend `p` with `i` as the next index. */
  lemma WithinChild(out: seq<Line>, p: Id, i: nat)
    requires DeclsWithin(out, p + [i])
    ensures DeclsBeyond(out, p, i)
    ensures forall k :: 0 <= k < |out| && out[k].Decl? ==> out[k].id[|p|] == i
  {
  }

  // ---------------------------------------------------------------------------
  // Properties of the output
  // ---------------------------------------------------------------------------

  /** The output of one node: a sentinel prints nothing; a real node prints its
      own declaration first; only declarations and edges follow, every edge
      immediately followed by its target's declaration; and a real node prints
      exactly one more declaration than edges. */
  lemma {:induction false} NodeDotForm(n: Node, p: Id)
    ensures n.sym.None? ==> NodeDot(n, p) == []
    ensures n.sym.Some? ==> |NodeDot(n, p)| > 0 && NodeDot(n, p)[0] == Decl(p, n.sym.value)
    ensures TargetsFollow(NodeDot(n, p)) && Body(NodeDot(n, p))
    ensures Decls(NodeDot(n, p)) == Edges(NodeDot(n, p)) + (if n.sym.Some? then 1 else 0)
    decreases n, 1
  {
    if n.sym.Some? {
      var head := [Decl(p, n.sym.value)];
      var rest := ChildrenDot(n, p, 0);
      ChildrenDotForm(n, p, 0);
      ShapeAppend(head, rest);
      CountAppend(head, rest);
      assert Decls(head) == 1 && Edges(head) == 0 by {
        assert head[..0] == [];
      }
      assert NodeDot(n, p) == head + rest;
    }
  }

  /** The output of the children of a node from index `i` on: only
      declarations and edges, every edge followed by its target's declaration,
      as many edges as declarations. */
  lemma {:induction false} ChildrenDotForm(n: Node, p: Id, i: nat)
    requires i <= |n.children|
    ensures TargetsFollow(ChildrenDot(n, p, i)) && Body(ChildrenDot(n, p, i))
    ensures Decls(ChildrenDot(n, p, i)) == Edges(ChildrenDot(n, p, i))
    decreases n, 0, |n.children| - i
  {
    if i < |n.children| && n.children[i].sym.Some? {
      var edge := [Edge(p, p + [i])];
      var sub := NodeDot(n.children[i], p + [i]);
      var rest := ChildrenDot(n, p, i + 1);
      NodeDotForm(n.children[i], p + [i]);
      ChildrenDotForm(n, p, i + 1);
      EdgeThen(p, p + [i], sub);
      ShapeAppend(edge + sub, rest);
      CountAppend(edge + sub, rest);
      assert ChildrenDot(n, p, i) == edge + sub + rest;
    }
  }

  /** Every identity declared in the output of the node at `p` lies under `p`,
      and none is declared twice. */
  lemma {:induction false} NodeDotIds(n: Node, p: Id)
    ensures DeclsWithin(NodeDot(n, p), p)
    ensures DistinctDecls(NodeDot(n, p))
    decreases n, 1
  {
    if n.sym.Some? {
      var head := [Decl(p, n.sym.value)];
      var rest := ChildrenDot(n, p, 0);
      ChildrenDotIds(n, p, 0);
      DistinctAppend(head, rest);
      assert NodeDot(n, p) == head + rest;
    }
  }

  /** Every identity declared for the children of the node at `p` from index
      `i` on extends `p` with an index at least `i`, and none is declared
      twice. */
  lemma {:induction false} ChildrenDotIds(n: Node, p: Id, i: nat)
    requires i <= |n.children|
    ensures DeclsBeyond(ChildrenDot(n, p, i), p, i)
    ensures DistinctDecls(ChildrenDot(n, p, i))
    decreases n, 0, |n.children| - i
  {
    if i < |n.children| && n.children[i].sym.Some? {
      var block := [Edge(p, p + [i])] + NodeDot(n.children[i], p + [i]);
      var rest := ChildrenDot(n, p, i + 1);
      NodeDotIds(n.children[i], p + [i]);
      ChildrenDotIds(n, p, i + 1);
      WithinChild(NodeDot(n.children[i], p + [i]), p, i);
      DistinctAppend([Edge(p, p + [i])], NodeDot(n.children[i], p + [i]));
      assert forall k :: 0 <= k < |block| && block[k].Decl? ==>
        |p| < |block[k].id| && block[k].id[..|p|] == p && block[k].id[|p|] == i;
      DistinctAppend(block, rest);
      assert ChildrenDot(n, p, i) == block + rest;
    }
  }

  /** The output of the roots from index `i` on: well formed, one more
      declaration than edges per real root, root `j` and everything under it
      declared under `[j]`, nothing declared twice. */
  lemma {:induction false} RootsDotShape(roots: seq<Node>, i: nat)
    requires i <= |roots|
    ensures TargetsFollow(RootsDot(roots, i)) && Body(RootsDot(roots, i))
    ensures Decls(RootsDot(roots, i)) == Edges(RootsDot(roots, i)) + RealRoots(roots, i)
    ensures DeclsBeyond(RootsDot(roots, i), [], i)
    ensures DistinctDecls(RootsDot(roots, i))
    decreases |roots| - i
  {
    if i < |roots| {
      var sub := NodeDot(roots[i], [i]);
      var rest := RootsDot(roots, i + 1);
      NodeDotForm(roots[i], [i]);
      NodeDotIds(roots[i], [i]);
      RootsDotShape(roots, i + 1);
      assert [] + [i] == [i];
      WithinChild(sub, [], i);
      ShapeAppend(sub, rest);
      CountAppend(sub, rest);
      DistinctAppend(sub, rest);
    }
  }

  /** The output of a whole trie: header first, footer last, only
      declarations and edges in between, every edge followed by its target's
      declaration, as many edges as declarations less the real roots, no
      identity declared twice; an empty trie prints header and footer only. */
  lemma TrieDotShape(roots: seq<Node>)
    ensures |TrieDot(roots)| >= 2
    ensures TrieDot(roots)[0] == Header && TrieDot(roots)[|TrieDot(roots)| - 1] == Footer
    ensures Body(TrieDot(roots)[1..|TrieDot(roots)| - 1])
    ensures TargetsFollow(TrieDot(roots))
    ensures Decls(TrieDot(roots)) == Edges(TrieDot(roots)) + RealRoots(roots, 0)
    ensures DistinctDecls(TrieDot(roots))
    ensures ChildEdges(TrieDot(roots)) && SourcesDeclared(TrieDot(roots))
    ensures roots == [] ==> TrieDot(roots) == [Header, Footer]
  {
    var body := RootsDot(roots, 0);
    RootsDotShape(roots, 0);
    var out := [Header] + body + [Footer];
    assert out[1..|out| - 1] == body;
    ShapeAppend([Header], body);
    ShapeAppend([Header] + body, [Footer]);
    CountAppend([Header], body);
    CountAppend([Header] + body, [Footer]);
    assert [Header][..0] == [] && [Footer][..0] == [];
    DistinctAppend([Header], body);
    DistinctAppend([Header] + body, [Footer]);
    TrieDotEdges(roots);
  }

  // ---------------------------------------------------------------------------
  // Edges and declarations against the tree
  // ---------------------------------------------------------------------------

  /** Some line before index `k` of `out` declares `id`. */
  ghost predicate DeclaredBefore(out: seq<Line>, id: Id, k: nat)
  {
    exists j :: 0 <= j < k && j < |out| && out[j].Decl? && out[j].id == id
  }

  /** Every edge runs from a node to one of its children: the target extends
      the source by exactly one index. */
  ghost predicate ChildEdges(out: seq<Line>)
  {
    forall k :: 0 <= k < |out| && out[k].Edge? ==>
      |out[k].dst| == |out[k].src| + 1 && out[k].dst[..|out[k].src|] == out[k].src
  }

  /** Every edge's source is `p` or is declared on an earlier line. */
  ghost predicate SourcesFrom(out: seq<Line>, p: Id)
  {
    forall k :: 0 <= k < |out| && out[k].Edge? ==> out[k].src == p || DeclaredBefore(out, out[k].src, k)
  }

  /** Every edge's source is declared on an earlier line. */
  ghost predicate SourcesDeclared(out: seq<Line>)
  {
    forall k :: 0 <= k < |out| && out[k].Edge? ==> DeclaredBefore(out, out[k].src, k)
  }

  lemma EdgesAppend(a: seq<Line>, b: seq<Line>, p: Id)
    ensures ChildEdges(a) && ChildEdges(b) ==> ChildEdges(a + b)
    ensures SourcesFrom(a, p) && SourcesFrom(b, p) ==> SourcesFrom(a + b, p)
    ensures SourcesDeclared(a) && SourcesDeclared(b) ==> SourcesDeclared(a + b)
  {
    forall k | 0 <= k < |a| && a[k].Edge? && DeclaredBefore(a, a[k].src, k)
      ensures DeclaredBefore(a + b, (a + b)[k].src, k)
    {
      var j :| 0 <= j < k && j < |a| && a[j].Decl? && a[j].id == a[k].src;
      assert (a + b)[j] == a[j];
    }
    forall k | |a| <= k < |a + b| && b[k - |a|].Edge? && DeclaredBefore(b, b[k - |a|].src, k - |a|)
      ensures DeclaredBefore(a + b, (a + b)[k].src, k)
    {
      var j :| 0 <= j < k - |a| && j < |b| && b[j].Decl? && b[j].id == b[k - |a|].src;
      assert (a + b)[|a| + j] == b[j];
    }
    assert forall k :: |a| <= k < |a + b| ==> (a + b)[k] == b[k - |a|];
  }

  /** Output that opens with the declaration of `p` and whose edges start at
      `p` or at an earlier declaration has every edge's source declared. */
  lemma Anchored(out: seq<Line>, p: Id)
    requires |out| > 0 && out[0].Decl? && out[0].id == p
    requires SourcesFrom(out, p)
    ensures SourcesDeclared(out)
  {
    forall k | 0 <= k < |out| && out[k].Edge?
      ensures DeclaredBefore(out, out[k].src, k)
    {
      if out[k].src == p {
        assert k > 0 && out[0].Decl? && out[0].id == out[k].src;
      }
    }
  }

  /** In the output of one node every edge goes from a node declared on an
      earlier line to one of that node's children. */
  lemma {:induction false} NodeDotEdges(n: Node, p: Id)
    ensures ChildEdges(NodeDot(n, p)) && SourcesDeclared(NodeDot(n, p))
    decreases n, 1
  {
    if n.sym.Some? {
      var head := [Decl(p, n.sym.value)];
      var rest := ChildrenDot(n, p, 0);
      ChildrenDotEdges(n, p, 0);
      EdgesAppend(head, rest, p);
      assert NodeDot(n, p) == head + rest;
      Anchored(head + rest, p);
    }
  }

  /** In the output of the children of the node at `p` every edge goes from
      `p` or from a node declared on an earlier line, to a child of its
      source. */
  lemma {:induction false} ChildrenDotEdges(n: Node, p: Id, i: nat)
    requires i <= |n.children|
    ensures ChildEdges(ChildrenDot(n, p, i)) && SourcesFrom(ChildrenDot(n, p, i), p)
    decreases n, 0, |n.children| - i
  {
    if i < |n.children| && n.children[i].sym.Some? {
      var edge := [Edge(p, p + [i])];
      var sub := NodeDot(n.children[i], p + [i]);
      var rest := ChildrenDot(n, p, i + 1);
      NodeDotEdges(n.children[i], p + [i]);
      ChildrenDotEdges(n, p, i + 1);
      assert (p + [i])[..|p|] == p;
      EdgesAppend(edge, sub, p);
      EdgesAppend(edge + sub, rest, p);
      assert ChildrenDot(n, p, i) == edge + sub + rest;
    }
  }

  /** The same for the roots from index `i` on. */
  lemma {:induction false} RootsDotEdges(roots: seq<Node>, i: nat)
    requires i <= |roots|
    ensures ChildEdges(RootsDot(roots, i)) && SourcesDeclared(RootsDot(roots, i))
    decreases |roots| - i
  {
    if i < |roots| {
      NodeDotEdges(roots[i], [i]);
      RootsDotEdges(roots, i + 1);
      EdgesAppend(NodeDot(roots[i], [i]), RootsDot(roots, i + 1), []);
    }
  }

  /** In the output of a whole trie every edge goes from a node declared on an
      earlier line to one of that node's children, so no edge starts or ends
      at a node that is not printed. */
  lemma TrieDotEdges(roots: seq<Node>)
    ensures ChildEdges(TrieDot(roots)) && SourcesDeclared(TrieDot(roots))
  {
    RootsDotEdges(roots, 0);
    EdgesAppend([Header], RootsDot(roots, 0), []);
    EdgesAppend([Header] + RootsDot(roots, 0), [Footer], []);
  }

  /** The number of real nodes in `n`, reached through real nodes (a
      sentinel counts nothing; in the trees the program builds a sentinel is
      a leaf). */
  function RealCount(n: Node): nat
    decreases n, 1
  {
    if n.sym.None? then 0 else 1 + ChildrenCount(n, 0)
  }

  /** The number of real nodes in the children of `n` from index `i` on. */
  function ChildrenCount(n: Node, i: nat): nat
    requires i <= |n.children|
    decreases n, 0, |n.children| - i
  {
    if i == |n.children| then 0 else RealCount(n.children[i]) + ChildrenCount(n, i + 1)
  }

  /** The number of real nodes in the roots from index `i` on. */
  function RootsCount(roots: seq<Node>, i: nat): nat
    requires i <= |roots|
    decreases |roots| - i
  {
    if i == |roots| then 0 else RealCount(roots[i]) + RootsCount(roots, i + 1)
  }

  lemma {:induction false} SentinelsCount(n: Node, i: nat)
    requires i <= |n.children|
    requires forall j :: i <= j < |n.children| ==> n.children[j].sym.None?
    ensures ChildrenCount(n, i) == 0
    decreases |n.children| - i
  {
    if i < |n.children| {
      SentinelsCount(n, i + 1);
    }
  }

  /** On a tree where no sentinel precedes a real sibling, the output of a
      node declares each of its real nodes once: as many declarations as real
      nodes. */
  lemma {:induction false} NodeDotCount(n: Node, p: Id)
    requires SentinelsTrail(n)
    ensures Decls(NodeDot(n, p)) == RealCount(n)
    decreases n, 1
  {
    if n.sym.Some? {
      ChildrenDotCount(n, p, 0);
      CountAppend([Decl(p, n.sym.value)], ChildrenDot(n, p, 0));
      assert [Decl(p, n.sym.value)][..0] == [];
    }
  }

  lemma {:induction false} ChildrenDotCount(n: Node, p: Id, i: nat)
    requires SentinelsTrail(n) && i <= |n.children|
    ensures Decls(ChildrenDot(n, p, i)) == ChildrenCount(n, i)
    decreases n, 0, |n.children| - i
  {
    if i < |n.children| {
      if n.children[i].sym.None? {
        SentinelsCount(n, i);
      } else {
        var edge := [Edge(p, p + [i])];
        var sub := NodeDot(n.children[i], p + [i]);
        var rest := ChildrenDot(n, p, i + 1);
        NodeDotCount(n.children[i], p + [i]);
        ChildrenDotCount(n, p, i + 1);
        CountAppend(edge, sub);
        CountAppend(edge + sub, rest);
        assert edge[..0] == [];
        assert ChildrenDot(n, p, i) == edge + sub + rest;
      }
    }
  }

  /** The output of a trie whose roots all have trailing sentinels declares
      exactly as many nodes as the trie has real nodes. */
  lemma {:induction false} TrieDotCount(roots: seq<Node>, i: nat)
    requires i <= |roots|
    requires forall j :: 0 <= j < |roots| ==> SentinelsTrail(roots[j])
    ensures Decls(RootsDot(roots, i)) == RootsCount(roots, i)
    ensures i == 0 ==> Decls(TrieDot(roots)) == RootsCount(roots, 0)
    decreases |roots| - i
  {
    if i < |roots| {
      NodeDotCount(roots[i], [i]);
      TrieDotCount(roots, i + 1);
      CountAppend(NodeDot(roots[i], [i]), RootsDot(roots, i + 1));
    }
    if i == 0 {
      CountAppend([Header], RootsDot(roots, 0));
      CountAppend([Header] + RootsDot(roots, 0), [Footer]);
      assert [Header][..0] == [] && [Footer][..0] == [];
    }
  }

  // ---------------------------------------------------------------------------
  // Stopping at a sentinel versus skipping it
  // ---------------------------------------------------------------------------

  /** The alternative printing policy: skip a sentinel child and go on with
      its later siblings instead of stopping. */
  function NodeDotSkip(n: Node, id: Id): seq<Line>
    decreases n, 1
  {
    match n.sym
    case None => []
    case Some(x) => [Decl(id, x)] + ChildrenDotSkip(n, id, 0)
  }

  function ChildrenDotSkip(n: Node, id: Id, i: nat): seq<Line>
    requires i <= |n.children|
    decreases n, 0, |n.children| - i
  {
    if i == |n.children| then []
    else if n.children[i].sym.None? then ChildrenDotSkip(n, id, i + 1)
    else [Edge(id, id + [i])] + NodeDotSkip(n.children[i], id + [i]) + ChildrenDotSkip(n, id, i + 1)
  }

  lemma {:induction false} SkipOnlySentinels(n: Node, id: Id, i: nat)
    requires i <= |n.children|
    requires forall j :: i <= j < |n.children| ==> n.children[j].sym.None?
    ensures ChildrenDotSkip(n, id, i) == []
    decreases |n.children| - i
  {
    if i < |n.children| {
      SkipOnlySentinels(n, id, i + 1);
    }
  }

  /** On a tree where no sentinel precedes a real sibling, which every chain
      and every merge result is, stopping at the first sentinel child prints
      exactly what skipping it would: the break in the source drops nothing. */
  lemma {:induction false} StopMatchesSkip(n: Node, id: Id)
    requires SentinelsTrail(n)
    ensures NodeDot(n, id) == NodeDotSkip(n, id)
    decreases n, 1
  {
    if n.sym.Some? {
      ChildrenStopMatchesSkip(n, id, 0);
    }
  }

  lemma {:induction false} ChildrenStopMatchesSkip(n: Node, id: Id, i: nat)
    requires SentinelsTrail(n) && i <= |n.children|
    ensures ChildrenDot(n, id, i) == ChildrenDotSkip(n, id, i)
    decreases n, 0, |n.children| - i
  {
    if i < |n.children| {
      if n.children[i].sym.None? {
        SkipOnlySentinels(n, id, i);
      } else {
        StopMatchesSkip(n.children[i], id + [i]);
        ChildrenStopMatchesSkip(n, id, i + 1);
      }
    }
  }

  /** The lines for the children from index `k` on, when the child at
      `i >= k` is a sentinel, declare only nodes under children before `i`. */
  lemma {:induction false} ChildrenDotBefore(n: Node, p: Id, k: nat, i: nat)
    requires k <= i < |n.children| && n.children[i].sym.None?
    ensures forall m :: 0 <= m < |ChildrenDot(n, p, k)| && ChildrenDot(n, p, k)[m].Decl? ==>
      |p| < |ChildrenDot(n, p, k)[m].id| && ChildrenDot(n, p, k)[m].id[|p|] < i
    decreases i - k
  {
    if n.children[k].sym.Some? {
      var block := [Edge(p, p + [k])] + NodeDot(n.children[k], p + [k]);
      var rest := ChildrenDot(n, p, k + 1);
      NodeDotIds(n.children[k], p + [k]);
      WithinChild(NodeDot(n.children[k], p + [k]), p, k);
      ChildrenDotBefore(n, p, k + 1, i);
      assert forall m :: 0 <= m < |block| && block[m].Decl? ==> |p| < |block[m].id| && block[m].id[|p|] == k;
      assert ChildrenDot(n, p, k) == block + rest;
      assert forall m :: |block| <= m < |block + rest| ==> (block + rest)[m] == rest[m - |block|];
    }
  }

  /** The lines for the children from index `k` on under the skipping policy
      declare every real child at `j >= k`. */
  lemma {:induction false} ChildrenSkipShows(n: Node, p: Id, k: nat, j: nat)
    requires k <= j < |n.children| && n.children[j].sym.Some?
    ensures Decl(p + [j], n.children[j].sym.value) in ChildrenDotSkip(n, p, k)
    decreases j - k
  {
    if k == j {
      var sub := NodeDotSkip(n.children[j], p + [j]);
      assert sub[0] == Decl(p + [j], n.children[j].sym.value);
      assert ChildrenDotSkip(n, p, k) == [Edge(p, p + [j])] + sub + ChildrenDotSkip(n, p, j + 1);
    } else {
      ChildrenSkipShows(n, p, k + 1, j);
    }
  }

  /** Where a sentinel child at `i` comes before a real child at `j`, the two
      policies differ: stopping declares nothing under a child at `i` or later,
      so neither the child at `j` nor anything below it, while skipping
      declares the child at `j`. */
  lemma StopHidesLaterSibling(n: Node, id: Id, i: nat, j: nat)
    requires n.sym.Some? && i < j < |n.children|
    requires n.children[i].sym.None? && n.children[j].sym.Some?
    ensures forall m :: 0 <= m < |NodeDot(n, id)| && NodeDot(n, id)[m].Decl? && |NodeDot(n, id)[m].id| > |id| ==>
      NodeDot(n, id)[m].id[|id|] < i
    ensures Decl(id + [j], n.children[j].sym.value) !in NodeDot(n, id)
    ensures Decl(id + [j], n.children[j].sym.value) in NodeDotSkip(n, id)
  {
    var head := [Decl(id, n.sym.value)];
    ChildrenDotBefore(n, id, 0, i);
    ChildrenSkipShows(n, id, 0, j);
    assert NodeDot(n, id) == head + ChildrenDot(n, id, 0);
    assert forall m :: 1 <= m < |NodeDot(n, id)| ==> NodeDot(n, id)[m] == ChildrenDot(n, id, 0)[m - 1];
    assert (id + [j])[|id|] == j;
  }
}
