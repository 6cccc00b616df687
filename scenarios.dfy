/**
 * The behaviour the source's own tests check (`can_create_single_node`,
 * `can_merge_nodes` in src/main.rs) and the run of the program on the two
 * input lines "win" and "won", derived from the contracts of the model.
 */
module Scenarios {
  import opened Nodes
  import opened Merge
  import opened Dot
  import opened Forest
  import opened Canonical

  /** A root `w` with the two branches `x` then `n` and `y` then `n`, in that
      order: what merging the chains for `wxn` and `wyn` yields. */
  function Fork(w: char, x: char, y: char, n: char): Node
  {
    Node(Some(w), [Node(Some(x), [Node(Some(n), [])]), Node(Some(y), [Node(Some(n), [])])])
  }

  /** The lines printed for `Fork(w, x, y, n)` as root 0. */
  function ForkLines(w: char, x: char, y: char, n: char): seq<Line>
  {
    [ Decl([0], w),
      Edge([0], [0, 0]), Decl([0, 0], x), Edge([0, 0], [0, 0, 0]), Decl([0, 0, 0], n),
      Edge([0], [0, 1]), Decl([0, 1], y), Edge([0, 1], [0, 1, 0]), Decl([0, 1, 0], n) ]
  }

  // ---------------------------------------------------------------------------
  // Two three-symbol words sharing their first and last symbols
  // ---------------------------------------------------------------------------

  lemma ChainBelow(w: char, x: char, n: char)
    ensures Below(FromString([w, x, n])) == {[x], [x, n]}
  {
    assert [w, x, n][1..] == [x, n];
    FromStringPaths([x, n]);
    ReachSingle(FromString([x, n]));
    assert [x, n][..1] == [x] && [x, n][..2] == [x, n];
    assert Prefixes([x, n]) == {[x], [x, n]};
  }

  /** A merged node with the paths of `wxn` and `wyn` below its root has two
      children, `x` and `y`, in some order. */
  lemma ForkChildren(r: Node, x: char, y: char, n: char)
    requires x != y && WellMerged(r) && Below(r) == {[x], [x, n], [y], [y, n]}
    ensures |r.children| == 2
    ensures || (r.children[0].sym == Some(x) && r.children[1].sym == Some(y))
            || (r.children[0].sym == Some(y) && r.children[1].sym == Some(x))
  {
    assert SymsOf(r.children) == {x, y} by {
      forall z ensures z in SymsOf(r.children) <==> z == x || z == y {
        ChildSymsArePaths(r, z);
      }
    }
    ChildCount(r);
    SymsOfMember(r.children, r.children[0].sym.value);
    SymsOfMember(r.children, r.children[1].sym.value);
  }

  /** The child carrying `x` of such a node is `x` with the single, childless
      child `n`. */
  lemma ForkBranch(r: Node, i: nat, x: char, y: char, n: char)
    requires x != y && WellMerged(r) && Below(r) == {[x], [x, n], [y], [y, n]}
    requires i < |r.children| && r.children[i].sym == Some(x)
    ensures r.children[i] == Node(Some(x), [Node(Some(n), [])])
  {
    var c := r.children[i];
    assert Below(c) == {[n]} by {
      forall q ensures q in Below(c) <==> q == [n] {
        if q == [] {
          if q in Below(c) { ReachHead(c.children, q); }
        } else {
          ChildBelow(r, i, x, q);
          var p := [x] + q;
          assert q == p[1..] && p[0] == x;
          if q == [n] {
            assert p == [x, n];
          }
        }
      }
    }
    OnlyChild(c, n);
    var g := c.children[0];
    assert Below(g) == {} by {
      forall q | q in Below(g) ensures false {
        ReachHead(g.children, q);
        ChildBelow(c, 0, n, q);
      }
    }
    NoPathsNoChildren(g);
    assert c.children == [g];
  }

  /** Such a node is the fork, with its branches in either order. */
  lemma ForkUnique(r: Node, w: char, x: char, y: char, n: char)
    requires r.sym == Some(w) && x != y
    requires WellMerged(r) && Below(r) == {[x], [x, n], [y], [y, n]}
    ensures r == Fork(w, x, y, n) || r == Fork(w, y, x, n)
  {
    ForkChildren(r, x, y, n);
    var x0, y0 := r.children[0].sym.value, r.children[1].sym.value;
    assert {[x], [x, n], [y], [y, n]} == {[x0], [x0, n], [y0], [y0, n]};
    ForkBranch(r, 0, x0, y0, n);
    ForkBranch(r, 1, y0, x0, n);
    assert r.children == [r.children[0], r.children[1]];
  }

  /** A branch `x` then `n` printed at `p`. */
  lemma BranchDot(x: char, n: char, p: Id)
    ensures NodeDot(Node(Some(x), [Node(Some(n), [])]), p) == [Decl(p, x), Edge(p, p + [0]), Decl(p + [0], n)]
  {
    var g := Node(Some(n), []);
    var c := Node(Some(x), [g]);
    assert NodeDot(g, p + [0]) == [Decl(p + [0], n)];
    assert ChildrenDot(c, p, 1) == [];
    assert ChildrenDot(c, p, 0) == [Edge(p, p + [0])] + NodeDot(g, p + [0]);
  }

  /** The fork printed as root 0: each node is declared once, under its own
      position, so the two `n` nodes get different identities. */
  lemma ForkDot(w: char, x: char, y: char, n: char)
    ensures NodeDot(Fork(w, x, y, n), [0]) == ForkLines(w, x, y, n)
  {
    var r := Fork(w, x, y, n);
    BranchDot(x, n, [0, 0]);
    BranchDot(y, n, [0, 1]);
    assert [0] + [0] == [0, 0] && [0] + [1] == [0, 1];
    assert [0, 0] + [0] == [0, 0, 0] && [0, 1] + [0] == [0, 1, 0];
    assert ChildrenDot(r, [0], 2) == [];
    assert ChildrenDot(r, [0], 1) == [Edge([0], [0, 1])] + NodeDot(r.children[1], [0, 1]);
    assert ChildrenDot(r, [0], 0) == [Edge([0], [0, 0])] + NodeDot(r.children[0], [0, 0]) + ChildrenDot(r, [0], 1);
  }

  /** A forest of one root prints the header, that root's lines and the
      footer. */
  lemma OneRootDot(root: Node)
    ensures TrieDot([root]) == [Header] + NodeDot(root, [0]) + [Footer]
  {
    assert RootsDot([root], 1) == [];
  }

  // ---------------------------------------------------------------------------
  // The source's tests and a run of the program
  // ---------------------------------------------------------------------------

  /** `can_create_single_node`: "win" becomes `w`, with the only child `i`,
      whose child is `n`. */
  lemma CreateWin()
    ensures FromString("win").sym == Some('w') && |FromString("win").children| == 1
    ensures FromString("win").children[0].sym == Some('i')
    ensures FromString("win").children[0].children[0].sym == Some('n')
  {
  }

  /** `can_merge_nodes`: "win" merged with "won" is the `w` node with the two
      branches `i` then `n` and `o` then `n`, in either order, and the two `n`
      nodes are printed under different identities. */
  method MergeWinWon() returns (r: Node)
    ensures r == Fork('w', 'i', 'o', 'n') || r == Fork('w', 'o', 'i', 'n')
    ensures var out := NodeDot(r, [0]);
      Decl([0, 0, 0], 'n') in out && Decl([0, 1, 0], 'n') in out && DistinctDecls(out)
  {
    r := MergeNodes(FromString("win"), FromString("won"));
    ChainBelow('w', 'i', 'n');
    ChainBelow('w', 'o', 'n');
    ForkUnique(r, 'w', 'i', 'o', 'n');
    ForkDot('w', 'i', 'o', 'n');
    ForkDot('w', 'o', 'i', 'n');
    NodeDotIds(r, [0]);
  }

  /** A merged node with the paths of `wxn` and `wyn` below its root prints,
      as root 0, the fork's lines with its branches in either order. */
  lemma ForkRootDot(root: Node, w: char, x: char, y: char, n: char)
    requires root.sym == Some(w) && x != y
    requires WellMerged(root) && Below(root) == {[x], [x, n], [y], [y, n]}
    ensures NodeDot(root, [0]) == ForkLines(w, x, y, n) || NodeDot(root, [0]) == ForkLines(w, y, x, n)
  {
    ForkUnique(root, w, x, y, n);
    ForkDot(w, x, y, n);
    ForkDot(w, y, x, n);
  }

  /** Two nodes with the same symbol inserted into an empty trie leave one
      root: their merge. */
  method InsertTwo(a: Node, b: Node) returns (t: Trie)
    requires a.sym == b.sym
    ensures |t.roots| == 1
    ensures t.roots[0].sym == a.sym && WellMerged(t.roots[0])
    ensures Below(t.roots[0]) == Below(a) + Below(b)
  {
    t := new Trie();
    t.Insert(a);
    assert t.roots == [a];
    assert Position(t.roots, b.sym) == Some(0);
    t.Insert(b);
  }

  /** Inserting a non-empty string whose prefixes the trie already holds, as
      after inserting the same string before, changes neither the paths of the
      trie nor its number of roots: no duplicate branch appears. */
  method InsertAgain(t: Trie, s: seq<char>)
    requires t.Valid() && s != [] && Prefixes(s) <= Reach(t.roots)
    modifies t
    ensures t.Valid()
    ensures Reach(t.roots) == old(Reach(t.roots))
    ensures |t.roots| == old(|t.roots|)
  {
    var m := FromString(s);
    FromStringPaths(s);
    assert s[..1] == [s[0]] && s[..1] in Prefixes(s);
    ReachHead(t.roots, [s[0]]);
    t.Insert(m);
  }

  /** The program on the input lines "win" and "won" (already upper-cased):
      one root `W` and the output declares `W`, `I`, `O` and two `N` nodes
      with four edges between them, nothing else. */
  method PrintWinWon() returns (out: seq<Line>)
    ensures || out == [Header] + ForkLines('W', 'I', 'O', 'N') + [Footer]
            || out == [Header] + ForkLines('W', 'O', 'I', 'N') + [Footer]
  {
    var win, won := FromString("WIN"), FromString("WON");
    ChainBelow('W', 'I', 'N');
    ChainBelow('W', 'O', 'N');
    var t := InsertTwo(win, won);
    out := t.PrintDot();
    assert t.roots == [t.roots[0]];
    ForkRootDot(t.roots[0], 'W', 'I', 'O', 'N');
    OneRootDot(t.roots[0]);
  }
}
