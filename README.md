# trie-rust in Dafny

A model of `trie-rust` (src/main.rs), a small program that reads words, stores
them in a prefix tree and prints the tree as a Graphviz DOT graph.

- A word becomes a *chain* of nodes. There is one node per character, each
  with a single child, and the chain ends in a childless *sentinel* node that
  carries no symbol (`Node::from_string`).
- The trie is a forest of root nodes (`Trie`). Inserting a chain either
  appends it as a new root, or takes out the first root with the same symbol
  and appends the *merge* of the two (`Trie::insert`).
- Merging two same-symbol nodes pools their children and buckets them by
  symbol in a hash map. Sentinel children are dropped. Each bucket is folded
  into one node by merging, starting from an empty node with the bucket's
  symbol (`_merge_node`).
- Printing writes a header, then every real node's declaration and one edge
  per parent–child link, then a footer. A node's loop over its children stops
  at the first sentinel child (`Node::print_dot`, `Trie::print_dot`).

The model states its properties in terms of the set of symbol *paths* below a
node:
- `Real(c)` is the set of paths that start at `c`.
- `Reach(cs)` is the union of `Real` over the sequence `cs`.
- `Below(n)` is `Reach(n.children)`.
- A path stops at the first sentinel.

Module layout, one file each:

- `Nodes` (nodes.dfy)
  - The `Node` datatype and the path and size vocabulary.
  - The shape predicates:
    - `WellMerged`: no sentinel, distinct sibling symbols, at every depth.
    - `SentinelsTrail`: no sentinel before a real sibling.
    - `IsChainOf`.
  - `NewEmpty` and `FromString`.
- `Merge` (merge.dfy)
  - `_merge_node` as three imperative, mutually recursive methods:
    - `GroupBySymbol`, the bucketing loop, which builds a `map<char, seq<Node>>`;
    - `FoldGroups` and `FoldNext`, the loop over the map;
    - `FoldBucket`, the fold of one bucket.
  - The map is visited in an order chosen by `:|`, so every property holds
    for any iteration order.
  - Termination uses the total number of nodes of the operands.
- `Dot` (dot.dfy)
  - The output as a sequence of records `Header | Decl(id, symbol) | Edge(src, dst) | Footer`.
  - `NodeDot`, `TrieDot` and friends are the functions that specify it.
  - `PrintNode` is the imperative printer, with its `break`.
  - Lemmas about the output's shape.
- `Forest` (trie.dfy)
  - The `Trie` class. Its field `roots` is reassigned by `Insert`.
  - `PrintDot`.
  - `BuildTrie`, the body of `main`'s input loop.
- `Canonical` (canonical.dfy)
  - A merge result is determined up to sibling order by its symbol and its
    paths.
  - Hence merge is commutative and associative up to sibling order, whatever
    order the map yields.
- `Scenarios` (scenarios.dfy)
  - The source's tests.
  - The run of the program on the lines `win` and `won`.

Node identifiers are the node's position in the forest: root `i` is `[i]`,
and child `j` of the node at `p` is `p + [j]`. The code uses the node's memory
address (src/main.rs:51-55). The model keeps what the output needs from that
choice: distinct nodes printed in one run get distinct identifiers
(`DistinctDecls`), and every edge runs from an already printed node to one of
its children (`TrieDotEdges`).

Two choices of the code shape the model:

- When it buckets the pooled children, the merge ignores children without a
  symbol (src/main.rs:138-152). A merge result therefore has no sentinel at
  any depth (`WellMerged`), and the model merges the same way.
- The printer's loop over a node's children breaks at the first sentinel child
  (src/main.rs:63-66). `StopMatchesSkip` shows that on every tree the program
  builds this prints exactly what skipping sentinels would. On any other tree
  it hides every real child after the sentinel (`StopHidesLaterSibling`).

## Model

| member | source | states |
|---|---|---|
| Nodes.NewEmpty | src/main.rs:19-24 | the node has the given symbol and no path below it, is trivially a merge result, and has size 1 |
| Nodes.FromString | src/main.rs:26-47 | the result is the chain for `s`: one node per character, in order, each with exactly one child, ending in a single childless sentinel; it has one node more than `s` has characters |
| Nodes.FromStringPaths | src/main.rs:34-47 | the paths starting at the chain for `s` are exactly the non-empty prefixes of `s` |
| Nodes.PrefixesCons | src/main.rs:35-42 | the non-empty prefixes of `s` are its first character and that character followed by each non-empty prefix of the rest (the recursion step of `_from_iter`) |
| Nodes.FromStringTrail | src/main.rs:34-47 | a chain never has a sentinel before a real sibling |
| Nodes.WellMergedTrail | src/main.rs:137-153 | a tree without sentinels trivially has no sentinel before a real sibling |
| Merge.Group | src/main.rs:137-153 | one bucket holds only nodes with the bucket's symbol and is no larger than the pooled children |
| Merge.GroupReach | src/main.rs:137-153 | the bucket for `k` reaches exactly the pooled paths that start with `k`: bucketing loses and invents no path |
| Merge.BucketReach | src/main.rs:157-161 | a non-empty bucket of `k` nodes reaches `[k]` and `k` followed by any path below one of its nodes |
| Merge.HeadsAll | src/main.rs:134-153 | every pooled path starts with the symbol of a non-empty bucket, so folding every bucket covers all pooled paths |
| Merge.AddBucket | src/main.rs:157-163 | appending the node folded from a new bucket keeps the outer loop's invariant: real, merged, distinct children reaching exactly the pooled paths of the symbols done |
| Merge.FoldedAll | src/main.rs:155-163 | once every bucket is folded, the children are real, merged and distinct, reach all pooled paths, and are no larger than the pooled nodes |
| Merge.GroupBySymbol | src/main.rs:134-153 | after the bucketing loop, the map has a key exactly for each symbol of a real pooled child, and each bucket is the pooled nodes with that symbol, in pooled order; sentinels are dropped |
| Merge.FoldBucket | src/main.rs:158-161 | folding a bucket from an empty node yields a node with the bucket's symbol that is a merge result and has exactly the paths below the bucket's nodes |
| Merge.FoldNext | src/main.rs:157-162 | one outer-loop step appends exactly one folded node and keeps the loop invariant |
| Merge.FoldGroups | src/main.rs:155-163 | whatever order the map is visited in, the new children are real, merged, carry pairwise distinct symbols, and reach exactly the pooled paths |
| Merge.MergeNodes | src/main.rs:129-166 | for same-symbol operands, the result keeps the symbol, has no sentinel and distinct sibling symbols at every depth, has exactly the union of the operands' paths below it, and is smaller than the operands together |
| Forest.Position | src/main.rs:92 | `None` exactly when no root carries the symbol; otherwise the first index whose root carries it |
| Forest.MergedReal | src/main.rs:96-98 | the merged root starts exactly the paths that the old root or the inserted node started |
| Forest.ReachReplace | src/main.rs:96-98 | removing root `i` and pushing a new node trades the old root's paths for the new node's |
| Forest.ReplaceKeeps | src/main.rs:94-99 | replacing a root by a same-symbol node moved to the end keeps root symbols distinct and every root's sentinel shape |
| Forest.AppendKeeps | src/main.rs:100-103 | pushing a node whose symbol no root carries keeps root symbols distinct and every root's sentinel shape |
| Forest.Trie.constructor | src/main.rs:85-87 | a new trie has no roots |
| Forest.Trie.Insert | src/main.rs:90-105 | with no root of `m`'s symbol, `m` is appended and nothing else changes; otherwise the first such root is removed, the others keep their order, and its merge with `m` is appended; root symbols stay distinct, roots grow by at most one, and the trie's paths become the old ones plus `m`'s |
| Forest.Trie.PrintDot | src/main.rs:109-115 | the output is the header, every root's lines in stored order, then the footer |
| Forest.BuildTrie | src/main.rs:168-181 | inserting the chains of all lines into a new trie gives distinct root symbols, at most one root per line, and exactly the non-empty prefixes of the lines as paths |
| Dot.PrintNode | src/main.rs:59-74 | the printed lines are those of `NodeDot`: nothing for a sentinel; otherwise the declaration, then for each child up to the first sentinel an edge and that child's lines |
| Dot.NodeDotForm | src/main.rs:59-74 | a sentinel prints nothing; a real node prints its own declaration first; only declarations and edges follow, each edge immediately followed by its target's declaration; one declaration more than edges |
| Dot.ChildrenDotForm | src/main.rs:63-70 | the children's lines are declarations and edges only, each edge immediately followed by its target's declaration, as many edges as declarations |
| Dot.NodeDotIds | src/main.rs:59-74 | every identity declared for a node lies under its position, and none is declared twice |
| Dot.ChildrenDotIds | src/main.rs:63-70 | the identities declared for children from index `i` extend the parent's with an index of at least `i`, and none is declared twice |
| Dot.RootsDotShape | src/main.rs:111-113 | the roots' lines are well formed, with declarations equal to edges plus the number of real roots, and no identity declared twice |
| Dot.TrieDotShape | src/main.rs:109-115 | header first, footer last, only declarations and edges between; every edge is followed by its target's declaration and starts at a node declared on an earlier line, and its target is a child of its source; edges equal declarations less real roots; no identity declared twice; an empty trie prints only header and footer |
| Dot.NodeDotEdges | src/main.rs:59-74 | in a node's lines every edge starts at a node declared on an earlier line and ends at a child of that node |
| Dot.ChildrenDotEdges | src/main.rs:63-70 | in the children's lines every edge starts at the parent or at a node declared on an earlier line, and ends at a child of its source |
| Dot.TrieDotEdges | src/main.rs:109-115 | in the trie's output no edge starts at a node not yet declared, and every edge goes from a node to one of its children |
| Dot.NodeDotCount | src/main.rs:59-74 | on a tree with no sentinel before a real sibling, a node's lines hold one declaration per real node of the tree |
| Dot.ChildrenDotCount | src/main.rs:63-70 | on such a tree, the children's lines from index `i` hold one declaration per real node under those children |
| Dot.TrieDotCount | src/main.rs:109-115 | when every root has that shape, the trie's output declares exactly as many nodes as the trie has real nodes |
| Dot.ChildrenDotBefore | src/main.rs:63-66 | with a sentinel child at `i`, the lines for the children declare only nodes under children before `i` |
| Dot.ChildrenSkipShows | src/main.rs:63-66 | under the skipping policy, every real child at or after the start index is declared |
| Dot.StopMatchesSkip | src/main.rs:63-66 | on a tree with no sentinel before a real sibling, stopping at the first sentinel child prints exactly what skipping it would |
| Dot.StopHidesLaterSibling | src/main.rs:63-66 | when a sentinel child at `i` precedes a real child at `j`, stopping declares nothing under any child from `i` on, so not the child at `j`, while skipping declares the child at `j` |
| Canonical.ReachKey | src/main.rs:134-163 | among siblings with distinct symbols, every path starting with `x` runs through the one sibling carrying `x` |
| Canonical.ChildSymsArePaths | src/main.rs:8-15 | the symbols of a node's real children are exactly its one-symbol paths |
| Canonical.DistinctCount | src/main.rs:155-163 | real siblings with distinct symbols are exactly as many as their symbols |
| Canonical.SameChildPaths | src/main.rs:155-163 | under two merge results with the same paths, the children carrying the same symbol have the same paths below them |
| Canonical.Pairing | src/main.rs:155-163 | under two merge results with the same paths, a permutation pairs each child of one with the child of the other carrying the same symbol |
| Canonical.Determined | src/main.rs:129-166 | two merge results with the same symbol and the same paths are the same tree up to a permutation of the children at every node |
| Canonical.MergeOrderIrrelevant | src/main.rs:129-166 | merging `a` with `b` or `b` with `a`, and `(a·b)·c` or `a·(b·c)`, give merge results (no sentinel, distinct sibling symbols) that are the same tree up to a permutation of the children at every node |
| Canonical.NoPathsNoChildren | src/main.rs:137-153 | a merge result with no path below it has no children |
| Scenarios.ForkUnique | src/main.rs:209-224 | a merge result with root `w` and the paths of `wxn` and `wyn` is the fork `w`→`x`→`n`, `w`→`y`→`n`, with its branches in either order |
| Scenarios.ForkDot | src/main.rs:59-74 | the fork printed as root 0 is exactly nine lines, with the two `n` nodes declared under different identities |
| Scenarios.CreateWin | src/main.rs:201-208 | the chain for "win" is `w`, with the single child `i`, whose child is `n` |
| Scenarios.MergeWinWon | src/main.rs:209-228 | merging "win" with "won" gives `w` with the two children `i` and `o`, in either order, each with the single child `n`; the two `n` nodes are printed under different identities |
| Scenarios.InsertTwo | src/main.rs:90-105 | inserting two same-symbol nodes into an empty trie leaves one root: a merge result with their combined paths |
| Scenarios.InsertAgain | src/main.rs:90-105 | inserting a non-empty string whose prefixes are already present changes neither the trie's paths nor its number of roots |
| Scenarios.PrintWinWon | src/main.rs:168-190 | on the lines "WIN" and "WON", the program prints the header, `W`, then `I`→`N` and `O`→`N` in either order, and the footer, with four edges and no sentinel |

## Left out

- The reading loop of `main` (src/main.rs:172-187) is not modelled. That
  covers reading lines from standard input, `trim`, `to_uppercase`, and the
  exit on a read error. `BuildTrie` takes the already normalised lines as a
  parameter. Unicode case mapping is not modelled.
- Printing is modelled as a returned sequence of records, not text. The
  exact DOT syntax (`digraph {`, `rankdir=LR;`, `label`, `shape=plain`) is
  not modelled.
- `Node::id` (src/main.rs:51-55) derives identifiers from memory addresses.
  The model uses tree positions instead. Only their distinctness within one
  output is modelled.
- The hash map's iteration order is unspecified. It is modelled as an
  arbitrary choice of the next key, and all merge properties hold for every
  order. Tree equality is therefore stated up to a permutation of the
  children at every node (`SameUpToOrder`).
- `MergeNodes` requires equal symbols. The source checks this with
  `assert_eq!` and panics otherwise (src/main.rs:131). The panic is not
  modelled.
- `_describe_node` (src/main.rs:119-125), a debugging aid writing to
  standard error, is not modelled.
- The `it_works` test (src/main.rs:197-199) is not modelled; it checks only
  integer arithmetic.
- Ownership and moves, for example `children.remove(i)` consuming the root,
  are modelled as values. Rust's move semantics leave no aliasing to model.
- The source notes that merging allocates a new node each time, and that
  updating `n` in place would be more efficient. The model keeps the
  allocating behaviour the code has.
