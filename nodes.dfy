/**
 * Trie nodes and the string-to-chain conversion (`Node`, `Node::new_empty`,
 * `Node::from_string` / `Node::_from_iter` in src/main.rs), together with the
 * vocabulary the rest of the model states its properties in: the set of symbol
 * paths below a node, the size of a tree, and the shape predicates that merge
 * results and string chains satisfy.
 */
module Nodes {

  datatype Option<T> = None | Some(value: T)

  /** One trie vertex: a symbol (`None` marks the end-of-word sentinel) and its
      owned children, in stored order. */
  datatype Node = Node(sym: Option<char>, children: seq<Node>)

  // ---------------------------------------------------------------------------
  // Symbol paths
  // ---------------------------------------------------------------------------

  /** `x` put in front of every path of `paths`. */
  function Prepend(x: char, paths: set<seq<char>>): set<seq<char>>
  {
    set q | q in paths :: [x] + q
  }

  /** The non-sentinel symbol paths that start at node `c` itself: empty for a
      sentinel, otherwise `[x]` and `x` followed by every path below `c`. */
  function Real(c: Node): set<seq<char>>
  {
    match c.sym
    case None => {}
    case Some(x) => {[x]} + Prepend(x, Reach(c.children))
  }

  /** The non-sentinel symbol paths that start at any node of `cs`. */
  function Reach(cs: seq<Node>): set<seq<char>>
  {
    if cs == [] then {} else Reach(cs[..|cs| - 1]) + Real(cs[|cs| - 1])
  }

  /** The non-sentinel symbol paths strictly below `n` (not counting `n`'s own
      symbol); a path stops at the first sentinel. */
  function Below(n: Node): set<seq<char>>
  {
    Reach(n.children)
  }

  lemma {:induction false} ReachAppend(a: seq<Node>, b: seq<Node>)
    ensures Reach(a + b) == Reach(a) + Reach(b)
    decreases |b|
  {
    if b == [] {
      assert a + b == a;
    } else {
      var b' := b[..|b| - 1];
      assert (a + b)[..|a + b| - 1] == a + b';
      assert (a + b)[|a + b| - 1] == b[|b| - 1];
      ReachAppend(a, b');
    }
  }

  lemma ReachSingle(c: Node)
    ensures Reach([c]) == Real(c)
  {
    assert [c][..0] == [];
  }

  /** Every path starting at `c` is non-empty and begins with `c`'s symbol. */
  lemma RealHead(c: Node, p: seq<char>)
    requires p in Real(c)
    ensures c.sym.Some? && |p| > 0 && p[0] == c.sym.value
  {
  }

  /** Every path starting at a node of `cs` is non-empty and begins with the
      symbol of a real node of `cs`. */
  lemma {:induction false} ReachHead(cs: seq<Node>, p: seq<char>)
    requires p in Reach(cs)
    ensures |p| > 0 && exists i :: 0 <= i < |cs| && cs[i].sym == Some(p[0])
  {
    if cs != [] {
      var last := cs[|cs| - 1];
      if p in Real(last) {
        RealHead(last, p);
        assert cs[|cs| - 1].sym == Some(p[0]);
      } else {
        ReachHead(cs[..|cs| - 1], p);
        var i :| 0 <= i < |cs| - 1 && cs[..|cs| - 1][i].sym == Some(p[0]);
        assert cs[i].sym == Some(p[0]);
      }
    }
  }

  // ---------------------------------------------------------------------------
  // Size
  // ---------------------------------------------------------------------------

  /** The number of nodes (sentinels included) in the tree rooted at `n`. */
  function Size(n: Node): nat
  {
    1 + SizeAll(n.children)
  }

  /** The number of nodes in the trees rooted at the nodes of `cs`. */
  function SizeAll(cs: seq<Node>): nat
  {
    if cs == [] then 0 else SizeAll(cs[..|cs| - 1]) + Size(cs[|cs| - 1])
  }

  lemma {:induction false} SizeAllAppend(a: seq<Node>, b: seq<Node>)
    ensures SizeAll(a + b) == SizeAll(a) + SizeAll(b)
    decreases |b|
  {
    if b == [] {
      assert a + b == a;
    } else {
      var b' := b[..|b| - 1];
      assert (a + b)[..|a + b| - 1] == a + b';
      assert (a + b)[|a + b| - 1] == b[|b| - 1];
      SizeAllAppend(a, b');
    }
  }

  // ---------------------------------------------------------------------------
  // Shapes
  // ---------------------------------------------------------------------------

  /** No two nodes of `cs` carry the same symbol. */
  predicate DistinctSyms(cs: seq<Node>)
  {
    forall i, j :: 0 <= i < j < |cs| ==> cs[i].sym != cs[j].sym
  }

  /** The shape of a merge result: at every depth below `n`, every child is a
      real (non-sentinel) node and siblings carry pairwise distinct symbols. */
  predicate WellMerged(n: Node)
  {
    && (forall i :: 0 <= i < |n.children| ==> n.children[i].sym.Some?)
    && DistinctSyms(n.children)
    && (forall i :: 0 <= i < |n.children| ==> WellMerged(n.children[i]))
  }

  /** At every depth below `n`, a sentinel child is never followed by a real
      sibling. Chains built from strings and merge results both have this shape. */
  predicate SentinelsTrail(n: Node)
  {
    && (forall i, j :: 0 <= i < j < |n.children| && n.children[i].sym.None? ==> n.children[j].sym.None?)
    && (forall i :: 0 <= i < |n.children| ==> SentinelsTrail(n.children[i]))
  }

  lemma {:induction false} WellMergedTrail(n: Node)
    requires WellMerged(n)
    ensures SentinelsTrail(n)
  {
    forall i | 0 <= i < |n.children|
      ensures SentinelsTrail(n.children[i])
    {
      WellMergedTrail(n.children[i]);
    }
  }

  /** `n` is the chain for `s`: one node per character of `s`, in order, each
      with exactly one child, ending in a single childless sentinel. */
  predicate IsChainOf(n: Node, s: seq<char>)
    decreases s
  {
    if s == [] then
      n.sym == None && n.children == []
    else
      n.sym == Some(s[0]) && |n.children| == 1 && IsChainOf(n.children[0], s[1..])
  }

  // ---------------------------------------------------------------------------
  // Construction
  // ---------------------------------------------------------------------------

  /** A node without children (`Node::new_empty`): it has no path below it and
      is itself a (trivial) merge result. */
  function NewEmpty(sym: Option<char>): (r: Node)
    ensures r.sym == sym && Below(r) == {} && WellMerged(r) && Size(r) == 1
  {
    Node(sym, [])
  }

  /** The chain for `s` (`Node::from_string`, `Node::_from_iter`): the first
      character becomes the node's symbol and the rest becomes its only child;
      the empty string becomes a lone sentinel. */
  function FromString(s: seq<char>): (r: Node)
    ensures IsChainOf(r, s)
    ensures Size(r) == |s| + 1
  {
    if s == [] then NewEmpty(None)
    else
      var child := FromString(s[1..]);
      assert [child][..0] == [];
      assert SizeAll([child]) == Size(child);
      Node(Some(s[0]), [child])
  }

  /** The non-empty prefixes of `s`. */
  function Prefixes(s: seq<char>): set<seq<char>>
  {
    set i | 1 <= i <= |s| :: s[..i]
  }

  /** The non-empty prefixes of a non-empty string: its first character, and
      that character followed by each non-empty prefix of the rest. */
  lemma PrefixesCons(s: seq<char>)
    requires s != []
    ensures Prefixes(s) == {[s[0]]} + Prepend(s[0], Prefixes(s[1..]))
  {
    var t := s[1..];
    forall p | p in Prefixes(s)
      ensures p in {[s[0]]} + Prepend(s[0], Prefixes(t))
    {
      var i :| 1 <= i <= |s| && p == s[..i];
      if i > 1 {
        assert t[..i - 1] in Prefixes(t);
        assert p == [s[0]] + t[..i - 1];
      } else {
        assert p == [s[0]];
      }
    }
    forall p | p in {[s[0]]} + Prepend(s[0], Prefixes(t))
      ensures p in Prefixes(s)
    {
      if p == [s[0]] {
        assert p == s[..1];
      } else {
        var q :| q in Prefixes(t) && p == [s[0]] + q;
        var i :| 1 <= i <= |t| && q == t[..i];
        assert p == s[..i + 1];
      }
    }
  }

  /** The paths of a string's chain are exactly the non-empty prefixes of the
      string: building a chain loses and invents nothing. */
  lemma {:induction false} FromStringPaths(s: seq<char>)
    ensures Real(FromString(s)) == Prefixes(s)
  {
    if s != [] {
      var child := FromString(s[1..]);
      FromStringPaths(s[1..]);
      ReachSingle(child);
      PrefixesCons(s);
    }
  }

  /** A chain never has a sentinel before a real sibling. */
  lemma {:induction false} FromStringTrail(s: seq<char>)
    ensures SentinelsTrail(FromString(s))
  {
    if s != [] {
      FromStringTrail(s[1..]);
    }
  }
}
